# MediaRSS decoder of feed-rs, in Dafny

This project models the MediaRSS extension decoder of the feed-rs crate
(`feed-rs/src/parser/mediarss.rs`) and proves properties of the model. The
decoder has two parts.

- **The element handlers.** `handle_media_group` creates a fresh media object
  and feeds each MediaRSS child of a `media:group` through
  `handle_media_element`. That function routes by (namespace, tag) to the leaf
  handlers for `title`, `description`, `content`, `thumbnail`, `community`,
  `credit` and `text`. `handle_media_content` recurses back into the
  dispatcher for the MediaRSS children of a `media:content` element.
- **The NPT decoder.** `parse_npt` and `parse_npt_add_frac_sec` decode "normal
  play time" (section 3.6 of RFC 2326). Two unanchored regular expressions are
  tried in turn: `H:MM:SS[.f]`, then `S[.f]`.

## How the model is built

- `results.dfy` holds `Option`, the decoder's error kinds, and `Result`. `:-`
  plays the role of Rust's `?`.
- `numbers.dfy` holds ASCII digit strings, their values, and Rust's unsigned
  `from_str`: an optional `+`, then one or more ASCII digits, with a value
  below 2^32 (`u32`) or 2^64 (`u64`).
- `npt.dfy` models each regex search as a scanner over `seq<char>`:
  `FindHms` and `FindSec`. It also states, without the scanners, what a
  leftmost-first search matches (`HmsAt`, `LeftmostHms`, `FirstDigitAt`), and
  proves that the two agree. A duration is a natural number of milliseconds.
- `npt_facts.dfy` renders well-formed NPT text and proves the decoder reads
  it back. It also holds the fraction arithmetic and the decoder's own test
  values.
- `xml.dfy` is the element tree as the tree walker presents it:
  - namespace, tag and attributes in document order;
  - children as a sequence of decode results (an `Err` child is one the walker
    failed to decode, surfaced by `child?`);
  - the outcomes of `child_as_text` and `children_as_string`.
- `attrs.dfy` models the attribute loops as a left fold (`FoldAttrs`). It
  gives independent reference definitions for what such a loop leaves behind:
  - `LastParsed`: the last attribute of a name whose value parses;
  - `LastValue`: the last attribute of a name;
  - `FirstValue`: `Iterator::find`.
- `media.dfy` holds the records: media object, content, thumbnail, image,
  community, credit, caption and text.
- `mediarss.dfy` holds the handlers. The accumulator is threaded
  functionally: each handler returns `Result<MediaObject>`, and an `Err`
  discards the partly filled object, as the source's `?` does.
  `handle_media_element`, `handle_media_content` and the child loop are
  mutually recursive. They terminate by structural descent on the element.
- `mediarss_facts.dfy` proves each attribute loop equal to its reference
  definition. It also proves the specifications of the leaf handlers.
- `dispatch_facts.dfy` proves what one dispatched element does to each field
  of the media object, and how the child loops treat foreign children and
  decode failures. It also proves that a group's lists are the concatenation
  of its children's own contributions, in document order.

The MIME parser (`str::parse::<Mime>`) and the `f64` parser are parameters
(`Parsers`): partial functions the proofs assume nothing about.

The `media:community` fields are optional. Each is assigned through
`if_ok_then_some` (mediarss.rs:66-80), which stores `Some(v)` when the value
parses and leaves the field as it was when it does not: after
`<starRating count="5"/><starRating count="x"/>` the count is still 5.

## Model

| member | source | states |
|---|---|---|
| Numbers.ParseUnsignedRoundTrip | feed-rs/src/parser/mediarss.rs:106-107 | the decimal digits of any n below the limit parse back to n, with or without a leading '+' |
| Numbers.ParseUnsignedOverflow | feed-rs/src/parser/mediarss.rs:188-189 | a value at or above the limit (2^32 for `u32`) is rejected, so the field is not assigned and keeps what earlier attributes set |
| Numbers.ParseUnsigned | feed-rs/src/parser/mediarss.rs:67-68 | a parsed value is below the limit, comes from text with a digit, and text starting with '-' never parses |
| Npt.FindHmsSpec | feed-rs/src/parser/mediarss.rs:243 | the H:MM:SS search finds nothing exactly when no position matches; otherwise it returns the captures of the leftmost match |
| Npt.FindSecSpec | feed-rs/src/parser/mediarss.rs:247 | the seconds search finds nothing exactly when the text has no digit; otherwise it returns the digit run at the first digit and the fraction right after it |
| Npt.FindHmsAt | feed-rs/src/parser/mediarss.rs:255 | whenever a leftmost H:MM:SS match exists, `captures` returns that match's groups |
| Npt.FindSecAt | feed-rs/src/parser/mediarss.rs:279 | whenever the text has a first digit, `captures` returns the run starting there |
| Npt.FracMillis | feed-rs/src/parser/mediarss.rs:299-302 | a fraction adds less than one second |
| Npt.AddFracSec | feed-rs/src/parser/mediarss.rs:297-307 | adding the fraction group adds less than 1000 ms, and nothing when the group did not match |
| Npt.ParseNptHms | feed-rs/src/parser/mediarss.rs:253-276 | when H:MM:SS matches, the result is the leftmost match's H*3600 + MM*60 + SS seconds plus its fraction |
| Npt.ParseNptSec | feed-rs/src/parser/mediarss.rs:278-290 | when H:MM:SS matches nowhere, the result is the first digit run as seconds plus the fraction right after it |
| Npt.ParseNptNone | feed-rs/src/parser/mediarss.rs:253-294 | `parse_npt` gives no value exactly when the text contains no digit |
| NptFacts.RenderedHmsLayout | feed-rs/src/parser/mediarss.rs:243 | in rendered `H:MM:SS[.f]` the hours, a clock tail `:MM:SS` and the fraction suffix sit where the H:MM:SS pattern expects them |
| NptFacts.RenderedHmsCaptures | feed-rs/src/parser/mediarss.rs:243 | the H:MM:SS pattern matches rendered `H:MM:SS[.f]` leftmost at its start, capturing exactly the rendered fields |
| NptFacts.ParseRenderedHms | feed-rs/src/parser/mediarss.rs:253-270 | any well-formed `H:MM:SS[.f]` decodes to H*3600 + MM*60 + SS seconds plus floor(1000*f/10^len(f)) ms |
| NptFacts.ParseRenderedSec | feed-rs/src/parser/mediarss.rs:278-288 | any well-formed `S[.f]` decodes to S seconds plus floor(1000*f/10^len(f)) ms |
| NptFacts.FracMillisShort | feed-rs/src/parser/mediarss.rs:299-302 | a fraction of at most three digits is exact: "5" is 500 ms, "05" is 50 ms |
| NptFacts.FracMillisFirstThree | feed-rs/src/parser/mediarss.rs:302 | only the first three fraction digits count; later ones are truncated, never rounded |
| NptFacts.FracMillisExamplesLeadingZero | feed-rs/src/parser/mediarss.rs:300-302 | one fraction digit is tenths and two are hundredths, leading zeros included |
| NptFacts.ParseNptExampleHms | feed-rs/src/parser/mediarss.rs:316 | "12:05:35" is 12*3600 + 5*60 + 35 seconds |
| NptFacts.ParseNptExampleHmsFrac | feed-rs/src/parser/mediarss.rs:317 | "12:05:35.123" is that plus 123 ms |
| NptFacts.ParseNptExampleSec | feed-rs/src/parser/mediarss.rs:318 | "123.45" is 123450 ms |
| NptFacts.ParseNptExampleNone | feed-rs/src/parser/mediarss.rs:292-293 | a text without digits, such as "not-a-time", is dropped |
| Attrs.LastParsed | feed-rs/src/parser/mediarss.rs:104-107 | a field set by `if_ok_then_some` in an attribute loop ends up set exactly when some attribute of that name parses |
| Attrs.LastParsedIndex | feed-rs/src/parser/mediarss.rs:104-107 | when such a field is set, it holds the parse of an attribute of that name after which no attribute of that name parses: the last parsable one wins |
| Attrs.LastValue | feed-rs/src/parser/mediarss.rs:186 | a field set by `url = Some(value)` ends up set exactly when some attribute has that name |
| Attrs.LastValueIndex | feed-rs/src/parser/mediarss.rs:186 | when set, it holds the value of an attribute of that name with no attribute of that name after it: the last one |
| Attrs.FirstValue | feed-rs/src/parser/mediarss.rs:216 | `find` yields a value exactly when some attribute has the name, and then the value of the first such attribute |
| MediaRss.HandleMediaGroup | feed-rs/src/parser/mediarss.rs:17-28 | a successful group is never `None` |
| MediaRss.HandleMediaElement | feed-rs/src/parser/mediarss.rs:33-54 | dispatching an element only appends to the thumbnail, credit and caption lists; it never removes or reorders their entries |
| MediaRss.DispatchChildren | feed-rs/src/parser/mediarss.rs:118-123 | the child loop only appends to the lists of the object it fills |
| MediaRss.HandleMediaContent | feed-rs/src/parser/mediarss.rs:97-130 | a content element only appends to the lists; if it changes the object at all, the object's content is this element's own record |
| MediaRss.CaptionMime | feed-rs/src/parser/mediarss.rs:148-152 | a caption `type` names a MIME type exactly when it is "plain" or "html", and HTML exactly when it is "html" |
| MediaRss.HandleMediaText | feed-rs/src/parser/mediarss.rs:159-171 | a caption handler fails exactly when collecting the text fails, and yields a caption exactly when there is text |
| MediaRss.HandleMediaCredit | feed-rs/src/parser/mediarss.rs:133-136 | a credit exists exactly when the element has text, and names that text; errors come only from collecting the text |
| MediaRss.TitleMime | feed-rs/src/parser/mediarss.rs:218-224 | only "plain" and "html" are accepted; any other value is `UnknownMimeType` carrying that value |
| MediaRss.HandleText | feed-rs/src/parser/mediarss.rs:226-234 | a successful title or description is always `Some`, and holds the element's serialized content |
| MediaRss.CommunityChildren | feed-rs/src/parser/mediarss.rs:60-61 | the community child loop fails exactly when some child fails to decode |
| MediaRss.HandleMediaCommunity | feed-rs/src/parser/mediarss.rs:57-94 | a community element succeeds exactly when all its children decode, and then always yields `Some` |
| MediaRssFacts.ContentAttrsSpec | feed-rs/src/parser/mediarss.rs:98-112 | the content record holds the last `url`, and the last `type`, `width` and `height` that parse |
| MediaRssFacts.ThumbnailAttrsSpec | feed-rs/src/parser/mediarss.rs:180-196 | the thumbnail loop keeps the last `url`, and the last `width`, `height` and `time` that parse |
| MediaRssFacts.CaptionAttrsSpec | feed-rs/src/parser/mediarss.rs:141-157 | the caption loop keeps the last parsable `start` and `end`; its type follows the last `type` attribute, even an unknown one after a valid one |
| MediaRssFacts.StarRatingFold | feed-rs/src/parser/mediarss.rs:63-75 | a `starRating` child's attributes extend the star attributes seen so far; the statistics fields are untouched |
| MediaRssFacts.StatisticsFold | feed-rs/src/parser/mediarss.rs:76-86 | a `statistics` child's attributes extend the statistics attributes seen so far; the star fields are untouched |
| MediaRssFacts.CommunityChildSpec | feed-rs/src/parser/mediarss.rs:62-90 | one decoded child adds its attributes to the star or statistics side by its tag; any other child changes nothing |
| MediaRssFacts.CommunityChildrenSpec | feed-rs/src/parser/mediarss.rs:60-91 | when every child decodes, each community field is the last parsable value of its attribute across all `starRating` (or `statistics`) children |
| MediaRssFacts.CommunityChildrenError | feed-rs/src/parser/mediarss.rs:60-61 | the community child loop reports the error of the first child that fails to decode |
| MediaRssFacts.ThumbnailSpec | feed-rs/src/parser/mediarss.rs:178-211 | a thumbnail exists exactly when some attribute is named `url`; an unparsable `width`, `height` or `time` is skipped, leaving the field as earlier attributes set it |
| MediaRssFacts.MediaTextSpec | feed-rs/src/parser/mediarss.rs:139-175 | a caption is HTML exactly when the last `type` is "html", and plain otherwise; its times are the last parsable `start` and `end`; without text there is no caption and no error |
| MediaRssFacts.HandleTextSpec | feed-rs/src/parser/mediarss.rs:214-235 | the first `type` attribute decides the type ("plain" when absent); an unknown type is an error before missing content is |
| MediaRssFacts.FirstValueAt | feed-rs/src/parser/mediarss.rs:216 | `find` returns the attribute that no earlier attribute shares its name with |
| MediaRssFacts.CommunitySpec | feed-rs/src/parser/mediarss.rs:57-94 | when every child decodes, the community record is built from the last parsable value of each attribute |
| MediaRssFacts.CommunityError | feed-rs/src/parser/mediarss.rs:60-61 | otherwise `handle_media_community` fails with the first child's decode error |
| DispatchFacts.ElementIgnored | feed-rs/src/parser/mediarss.rs:49-50 | an element outside MediaRSS, or with an unknown tag, leaves the object unchanged and never fails |
| DispatchFacts.ElementOverwrites | feed-rs/src/parser/mediarss.rs:35-43 | `title`, `description` and `community` replace only their own field (last one wins), and their handlers' errors propagate |
| DispatchFacts.ThumbnailElement | feed-rs/src/parser/mediarss.rs:39 | `thumbnail` appends the reference thumbnail when a `url` attribute exists, and leaves the object unchanged otherwise |
| DispatchFacts.CreditElement | feed-rs/src/parser/mediarss.rs:45 | `credit` appends a credit when there is text, leaves the object unchanged without text, and fails when collecting the text fails |
| DispatchFacts.TextElement | feed-rs/src/parser/mediarss.rs:47 | `text` appends the reference caption when there is text, leaves the object unchanged without text, and fails when collecting the text fails |
| DispatchFacts.ContentWithoutUrl | feed-rs/src/parser/mediarss.rs:114-129 | a `content` element without `url` leaves the object unchanged; its children, even undecodable ones, are never read |
| DispatchFacts.ContentWithUrl | feed-rs/src/parser/mediarss.rs:116-127 | with a `url`, nested children are dispatched first; then this element's record (last `url` wins) replaces any content they set |
| DispatchFacts.DispatchAborts | feed-rs/src/parser/mediarss.rs:118-121 | a child that fails to decode aborts the child loop, whatever came before it |
| DispatchFacts.DispatchSkipsForeign | feed-rs/src/parser/mediarss.rs:20-24 | children outside MediaRSS are skipped |
| DispatchFacts.GroupAborts | feed-rs/src/parser/mediarss.rs:20-21 | a group fails whenever one of its children fails to decode |
| DispatchFacts.GroupOfForeign | feed-rs/src/parser/mediarss.rs:17-27 | a group whose children all decode and none of which is in MediaRSS yields an empty media object, never `None` |
| DispatchFacts.DispatchThumbnailStep | feed-rs/src/parser/mediarss.rs:20-24 | a `thumbnail` child of the loop adds its thumbnail, if any, and the loop carries on with the next child |
| DispatchFacts.DispatchThumbnails | feed-rs/src/parser/mediarss.rs:20-24 | over `thumbnail` children the loop never fails and appends their thumbnails in document order, each once, changing nothing else |
| DispatchFacts.GroupThumbnails | feed-rs/src/parser/mediarss.rs:17-28 | a group of `thumbnail` elements lists exactly the thumbnails of those with a `url`, in document order |
| DispatchFacts.ElementFrame | feed-rs/src/parser/mediarss.rs:33-54 | what an element appends to the thumbnail, credit and caption lists does not depend on the object it is dispatched into: it succeeds into any object exactly when it succeeds into an empty one, and appends the same entries |
| DispatchFacts.ContentFrame | feed-rs/src/parser/mediarss.rs:97-130 | the same for a `content` element, nested children included |
| DispatchFacts.ChildrenFrame | feed-rs/src/parser/mediarss.rs:118-123 | the same for the child loop of a `content` element |
| DispatchFacts.ChildrenLists | feed-rs/src/parser/mediarss.rs:20-24 | a successful child loop appends exactly each child's own contribution, concatenated in document order |
| DispatchFacts.GroupLists | feed-rs/src/parser/mediarss.rs:17-28 | a successful group's thumbnails, credits and captions are exactly the concatenation, in document order, of what each MediaRSS child contributes on its own |

## Left out

- Npt.FracMillis: the fraction is converted exactly, as floor(1000*f/10^n).
  The source computes `(1000f32 * (num / denom)) as u64` in single precision
  (mediarss.rs:300-302). The two differ in both directions from three digits
  on:
  - low: "251", "253", "502", "506" and "511" each give one millisecond less
    in `f32` (1000 * f32(0.251) is 250.99998..., truncated to 250);
  - high: "99999999" parses to the `f32` 1e8, equal to `10f32.powi(8)`, so
    the source adds exactly 1000 ms where the exact floor adds 999;
    "0999999999" gives 100 against 99.

  A fraction of more than 38 digits makes `10f32.powi(n)` infinite, so the
  source adds nothing there.
- NptFacts.FracMillisShort, NptFacts.FracMillisFirstThree, Npt.AddFracSec:
  "a fraction of at most three digits is exact", "only the first three
  digits count, truncated" and "a fraction adds less than one second" are
  proved of the exact conversion only. The source's `f32` arithmetic breaks
  each of them: "251" is 250 ms there, and "99999999" adds a whole second.
- Npt.ParseNpt: the arithmetic is on unbounded naturals. In the source,
  `seconds` is a `u64` (mediarss.rs:262-264). The minutes have two digits,
  so `m * 60` and the first addition stay below 6040; `h * 3600` and the
  addition at line 264 can overflow: "5124095576030432:00:00" has the
  smallest hours value that parses but, times 3600, exceeds 2^64. That
  panics in a debug build and wraps in a release build; the model returns
  the exact value. The `Duration::add` at mediarss.rs:303 can overflow too
  (whole seconds at the `u64` maximum plus an `f32` fraction that rounds to
  1000 ms), which panics.
- Panics from `unwrap()` (mediarss.rs:262-264, 282, 301) are not modelled:
  - a digit run too long for `u64`;
  - Rust's Unicode `\d` matching a non-ASCII digit that `parse` then rejects.

  Digits are ASCII only and values are unbounded naturals.
- The `lazy_static!` compilation of the two regular expressions
  (mediarss.rs:238-249) is not modelled. The scanners stand for the compiled
  searches.
- The XML tree walker (`Element`, `children()`, `child_as_text`,
  `children_as_string`) is not part of this model. Its outcomes are fields of
  the element, and lazy iteration is not modelled.
- MIME parsing and `f64` parsing of `average` are parameters with no assumed
  behaviour. `f64` values are reals.
- Model fields of the records beyond those the handlers set are not modelled
  (`feed-rs/src/model.rs` is not part of this model).
- The cross-scope priority merge described at mediarss.rs:12-14 is not
  implemented in the source and is not modelled.
- `feed-rs/fuzz/fuzz_targets/parse.rs` is not modelled: it passes bytes to
  the whole-document parser and has no logic of its own.
- MediaRss.HandleMediaThumbnail: returns an `Option` rather than a `Result`.
  The source's `handle_media_thumbnail` never returns an error.
- DispatchFacts.GroupAborts: states only that an undecodable child makes the
  group fail. It does not characterize every failure: failures can also come
  from a title, description or community handler at any depth.
- Recursion depth is unbounded here. The stack exhaustion that deeply nested
  `media:content` could cause in the source is not modelled.
