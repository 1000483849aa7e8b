/**
 `TwitterBot.format_content`: the text that is published for one content
 file. The body is the file's text, cut down and ended with "..." when it
 does not fit; an optional timestamp line and a line of hashtags follow it.
 The current time is an input: `stamp` stands for the string
 `datetime.now().strftime('%Y-%m-%d %H:%M:%S')` the source computes.
 */
module Formatter {
  import opened PyStr

  /** The `content` block of the bot's settings. */
  datatype ContentSettings = ContentSettings(
    maxLength: int,
    hashtags: seq<string>,
    addTimestamp: bool)

  /** The hashtag line: the hashtags joined by single spaces. */
  function HashtagLine(settings: ContentSettings): (line: string)
  {
    Join(settings.hashtags)
  }

  /** The timestamp segment: a new line and the bracketed time, or nothing. */
  function TimestampSegment(settings: ContentSettings, stamp: string): (segment: string)
  {
    if settings.addTimestamp then "\n[" + stamp + "]" else ""
  }

  /** The room left for the body: the two characters held back are the
      newline before the hashtags and one spare. */
  function AvailableLength(settings: ContentSettings, stamp: string): (available: int)
    ensures settings.addTimestamp ==>
              available == settings.maxLength - |HashtagLine(settings)| - |stamp| - 5
    ensures !settings.addTimestamp ==>
              available == settings.maxLength - |HashtagLine(settings)| - 2
  {
    settings.maxLength - |HashtagLine(settings)| - |TimestampSegment(settings, stamp)| - 2
  }

  /** The body: the content itself when it fits in `available` characters,
      otherwise its Python prefix slice `content[:available-3]` and "...". */
  function Body(content: string, available: int): (b: string)
    ensures |content| <= available ==> b == content
    ensures |content| > available ==>
              && 3 <= |b| <= |content| + 3 && b[|b| - 3..] == "..."
              && b[..|b| - 3] == content[..|b| - 3]
    ensures |content| > available && available >= 3 ==> |b| == available
    ensures |content| > available && available < 3 ==> |b| > available
  {
    if |content| > available then PrefixSlice(content, available - 3) + "..."
    else content
  }

  /** The published text: body, timestamp segment, a newline, hashtags. */
  function FormatContent(content: string, settings: ContentSettings, stamp: string): (r: string)
    ensures var tail := "\n" + HashtagLine(settings);
            |r| >= |tail| && r[|r| - |tail|..] == tail
    ensures settings.addTimestamp ==>
              var tail := "\n[" + stamp + "]" + "\n" + HashtagLine(settings);
              |r| >= |tail| && r[|r| - |tail|..] == tail
  {
    var body := Body(content, AvailableLength(settings, stamp));
    var segment := TimestampSegment(settings, stamp);
    var line := HashtagLine(settings);
    EndsWith(body, segment, line);
    body + segment + "\n" + line
  }

  /** What ends `body + segment + "\n" + line`. */
  lemma EndsWith(body: string, segment: string, line: string)
    ensures var r, tail := body + segment + "\n" + line, "\n" + line;
            |r| >= |tail| && r[|r| - |tail|..] == tail
    ensures var r, tail := body + segment + "\n" + line, segment + "\n" + line;
            |r| >= |tail| && r[|r| - |tail|..] == tail
  {
    var r := body + segment + "\n" + line;
    assert r == (body + segment) + ("\n" + line);
    assert r == body + (segment + "\n" + line);
  }

  /** Content that fits is published unchanged, followed by the timestamp
      segment and the hashtag line. */
  lemma FormatFitting(content: string, settings: ContentSettings, stamp: string)
    requires |content| <= AvailableLength(settings, stamp)
    ensures FormatContent(content, settings, stamp)
            == content + TimestampSegment(settings, stamp) + "\n" + HashtagLine(settings)
  {
  }

  /** Content that does not fit, when the room is at least the length of the
      ellipsis, is cut to `available - 3` characters plus "...", so that the
      body takes exactly the room there is. */
  lemma FormatTruncated(content: string, settings: ContentSettings, stamp: string)
    requires 3 <= AvailableLength(settings, stamp) < |content|
    ensures var available := AvailableLength(settings, stamp);
            var body := content[..available - 3] + "...";
            && |body| == available
            && FormatContent(content, settings, stamp)
               == body + TimestampSegment(settings, stamp) + "\n" + HashtagLine(settings)
  {
  }

  /** The published text is shorter than `max_length` exactly when the
      content fits or the room is at least the length of the ellipsis. When
      the room is smaller and the content is cut, Python's negative slice
      keeps too much and the text reaches `max_length` or more. */
  lemma FormatFitsIff(content: string, settings: ContentSettings, stamp: string)
    ensures var available := AvailableLength(settings, stamp);
            |FormatContent(content, settings, stamp)| <= settings.maxLength - 1
            <==> (|content| <= available || available >= 3)
  {
    var available := AvailableLength(settings, stamp);
    var body := Body(content, available);
    var rest := |TimestampSegment(settings, stamp)| + 1 + |HashtagLine(settings)|;
    assert |FormatContent(content, settings, stamp)| == |body| + rest;
    assert settings.maxLength - 1 == available + rest;
    if |content| > available && available < 3 {
      assert |body| == |PrefixSlice(content, available - 3)| + 3;
    }
  }

  /** The bound holds for every content once the room is at least 3. */
  lemma FormatLengthBound(content: string, settings: ContentSettings, stamp: string)
    requires AvailableLength(settings, stamp) >= 3
    ensures |FormatContent(content, settings, stamp)| <= settings.maxLength - 1
  {
    FormatFitsIff(content, settings, stamp);
  }

  /** An input that shows the bound failing: with `max_length` 10, the tag
      "#abcdefg" and no timestamp the room is 0, and ten characters of
      content come out as seven characters and "..." — 19 characters in all. */
  lemma FormatOverflowExample()
    ensures var settings := ContentSettings(10, ["#abcdefg"], false);
            && AvailableLength(settings, "") == 0
            && FormatContent("0123456789", settings, "") == "0123456...\n#abcdefg"
            && |FormatContent("0123456789", settings, "")| == 19
  {
    var settings := ContentSettings(10, ["#abcdefg"], false);
    assert PrefixSlice("0123456789", -3) == "0123456";
  }

  /** A short text with one tag and no timestamp: "Hello world", a newline
      and "#x", 14 characters. */
  lemma FormatShortExample(stamp: string)
    ensures FormatContent("Hello world", ContentSettings(20, ["#x"], false), stamp)
            == "Hello world\n#x"
  {
  }

  /** A 100-character text under a 20-character limit with the tag "#x": the
      room is 16, so 13 characters are kept and "..." added. */
  lemma FormatLongExample(stamp: string)
    ensures var content := seq(100, _ => 'a');
            FormatContent(content, ContentSettings(20, ["#x"], false), stamp)
            == seq(13, _ => 'a') + "..." + "\n#x"
  {
    var content := seq(100, _ => 'a');
    assert AvailableLength(ContentSettings(20, ["#x"], false), stamp) == 16;
    assert content[..13] == seq(13, _ => 'a');
  }
}
