/**
  One parsed article page and the fields the handler reads from it. Each
  `Option` stands for a `find` on the page that may come back empty; a found
  node is represented by its `.text` (or, for the image, by its `src` attribute).
 */
module Article {
  import opened Wrappers
  import opened PyText

  /** The nodes of an article page that the handler looks up. */
  datatype ArticlePage = ArticlePage(
    content: Option<string>,                  // div.article__content
    imageDiv: Option<Option<Option<string>>>, // div.image, its img.image__dam-img, that img's src
    byline: Option<string>,                   // div.byline__names
    timestamp: Option<string>)                // div.timestamp

  const UnknownAuthor: string := "Unknown Author"
  const UnknownTimestamp: string := "Unknown Timestamp"
  const Published: string := "Published"
  const Updated: string := "Updated"
  const Ellipsis: string := "..."
  const DescriptionLimit: nat := 200

  /** The image URL: present only when the image div, the img inside it and
      its `src` are all there. */
  function ImageUrl(imageDiv: Option<Option<Option<string>>>): (r: Option<string>)
    ensures r.Some? <==> imageDiv.Some? && imageDiv.value.Some? && imageDiv.value.value.Some?
    ensures r.Some? ==> r == imageDiv.value.value
  {
    match imageDiv
    case None => None
    case Some(img) =>
      match img
      case None => None
      case Some(src) => src
  }

  /** The author: the byline's stripped text, or the placeholder. Never has
      whitespace at either end. */
  function Author(byline: Option<string>): (r: string)
    ensures IsStripped(r)
    ensures byline.None? ==> r == UnknownAuthor
    ensures byline.Some? ==> r == Strip(byline.value)
  {
    if byline.Some? then Strip(byline.value) else UnknownAuthor
  }

  /** The publication date: the placeholder when there is no timestamp,
      otherwise the date read from its stripped text. */
  function PublicationDate(timestamp: Option<string>): (r: string)
    ensures IsStripped(r)
    ensures timestamp.None? ==> r == UnknownTimestamp
  {
    if timestamp.None? then UnknownTimestamp else DateOfText(Strip(timestamp.value))
  }

  /** The date in a stripped timestamp text: what follows the first
      "Published", else what follows the first "Updated", stripped; the
      placeholder when neither word occurs. */
  function DateOfText(text: string): (r: string)
    ensures IsStripped(r)
  {
    if Contains(text, Published) then Strip(AfterFirst(text, Published))
    else if Contains(text, Updated) then Strip(AfterFirst(text, Updated))
    else UnknownTimestamp
  }

  /** The date follows the first occurrence of the first marker that occurs. */
  lemma PublicationDateRule(timestamp: string)
    ensures DateFrom(Strip(timestamp), PublicationDate(Some(timestamp)))
  {
    DateOfTextRule(Strip(timestamp));
  }

  lemma DateOfTextRule(t: string)
    ensures DateFrom(t, DateOfText(t))
  {
    MarkerRule(t, Published, Updated, UnknownTimestamp, DateOfText(t));
  }

  /** Reading after the first marker that `in` finds, with `split(marker, 1)`,
      is reading after its first occurrence. */
  lemma MarkerRule(t: string, first: string, second: string, none: string, r: string)
    requires first != [] && second != []
    requires r == if Contains(t, first) then Strip(AfterFirst(t, first))
                  else if Contains(t, second) then Strip(AfterFirst(t, second))
                  else none
    ensures if Find(t, first).Some? then r == Strip(t[Find(t, first).value + |first|..])
            else if Find(t, second).Some? then r == Strip(t[Find(t, second).value + |second|..])
            else r == none
  {
  }

  /** `r` is the date read from the stripped timestamp text `t`: the stripped
      rest after the first occurrence of the first marker that occurs. */
  predicate DateFrom(t: string, r: string)
  {
    if Find(t, Published).Some? then r == Strip(t[Find(t, Published).value + |Published|..])
    else if Find(t, Updated).Some? then r == Strip(t[Find(t, Updated).value + |Updated|..])
    else r == UnknownTimestamp
  }

  /** The description: the stripped body when it has at most 200 characters,
      otherwise its first 200 characters followed by "...", 203 in all. */
  function Description(body: string): (r: string)
    ensures var t := Strip(body);
            if |t| > DescriptionLimit then
              |r| == DescriptionLimit + |Ellipsis| && r[..DescriptionLimit] == t[..DescriptionLimit] && r[DescriptionLimit..] == Ellipsis
            else r == t
  {
    var text := Strip(body);
    if |text| > DescriptionLimit then text[..DescriptionLimit] + Ellipsis else text
  }

  /** A description never exceeds 203 characters and always begins like the
      stripped body. */
  lemma DescriptionBounded(body: string)
    ensures |Description(body)| <= DescriptionLimit + |Ellipsis|
    ensures var n := if |Strip(body)| < DescriptionLimit then |Strip(body)| else DescriptionLimit;
            n <= |Description(body)| && Description(body)[..n] == Strip(body)[..n]
  {
  }

  /** The timestamp as CNN usually writes it. The text after the marker keeps
      whatever punctuation follows the marker: only whitespace is stripped. */
  lemma PublishedWithColon(t: string)
    requires t == "Published: Jan 1, 2024"
    ensures PublicationDate(Some(t)) == ": Jan 1, 2024"
  {
    assert Strip(t) == t by {
      StripStripped(IsSpace, t);
    }
    assert OccursAt(t, Published, 0);
    assert Find(t, Published) == Some(0);
    var rest := t[|Published|..];
    assert rest == ": Jan 1, 2024";
    assert Strip(rest) == rest by {
      StripStripped(IsSpace, rest);
    }
    PublicationDateRule(t);
  }

  /** "Published" wins over "Updated" wherever the two occur. */
  lemma PublishedTakesPriority(text: string)
    requires Contains(Strip(text), Published) && Contains(Strip(text), Updated)
    ensures PublicationDate(Some(text)) == Strip(AfterFirst(Strip(text), Published))
  {
  }
}
