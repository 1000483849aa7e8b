/**
 The `TwitterBot` object: the settings it was built with and the history of
 posted paths, which `post_tweet` appends to in place. The outside world is
 passed in: whether the content directory exists, the paths its
 `*.md` glob lists, the text of each file that reads successfully, the
 current time as a string, and what the publishing client does with a text.
 */
module Bot {
  import opened PyStr
  import opened Formatter
  import opened Selection

  datatype Option<+T> = None | Some(value: T)

  /** What `get_random_content` hands back: a path and its stripped text. */
  datatype ContentData = ContentData(filePath: string, content: string)

  class TwitterBot {
    const settings: ContentSettings
    /** `posted_history['posted_files']`. */
    var postedFiles: seq<string>

    /** `__init__` together with `_load_history`: `stored` is the list of
        posted files read from the history file, or `None` when there is
        no such file, in which case the history starts empty. */
    constructor (settings: ContentSettings, stored: Option<seq<string>>)
      ensures this.settings == settings
      ensures stored.Some? ==> postedFiles == stored.value
      ensures stored.None? ==> postedFiles == []
    {
      this.settings := settings;
      postedFiles := if stored.Some? then stored.value else [];
    }

    /** `get_random_content`: nothing when the directory is missing, when
        every listed file has been posted, or when the chosen file cannot be
        read; otherwise one unposted listed file, chosen freely, with its
        text stripped of surrounding white space. A path missing from
        `bodies` is a file whose read fails. */
    method GetRandomContent(dirExists: bool, listing: seq<string>, bodies: map<string, string>)
      returns (r: Option<ContentData>)
      ensures !dirExists ==> r.None?
      ensures Unposted(listing, postedFiles) == [] ==> r.None?
      ensures r.Some? ==>
                && r.value.filePath in listing
                && r.value.filePath !in postedFiles
                && r.value.filePath in bodies
                && r.value.content == Strip(bodies[r.value.filePath])
      ensures r.None? ==>
                || !dirExists
                || Unposted(listing, postedFiles) == []
                || exists p :: p in Unposted(listing, postedFiles) && p !in bodies
    {
      if !dirExists {
        return None;
      }
      var unposted := Unposted(listing, postedFiles);
      if unposted == [] {
        return None;
      }
      var i :| 0 <= i < |unposted|;
      var selected := unposted[i];
      if selected !in bodies {
        return None;
      }
      return Some(ContentData(selected, Strip(bodies[selected])));
    }

    /** `post_tweet`: pick a file, format it, publish it, and append its
        path to the history only when publishing returned. `publish` says
        whether the client's `update_status` call returns for a text
        (`false`: it raised). */
    method PostTweet(
      dirExists: bool, listing: seq<string>, bodies: map<string, string>,
      stamp: string, publish: string -> bool)
      returns (attempt: Attempt)
      modifies this
      ensures postedFiles == Record(old(postedFiles), attempt)
      ensures Admissible(old(postedFiles), listing, attempt)
      ensures !attempt.Skipped? ==>
                && attempt.path in bodies
                && attempt.text == FormatContent(Strip(bodies[attempt.path]), settings, stamp)
                && (attempt.Posted? <==> publish(attempt.text))
      ensures !dirExists || Unposted(listing, old(postedFiles)) == [] ==>
                attempt == Skipped && postedFiles == old(postedFiles)
      ensures attempt.Skipped? ==>
                || !dirExists
                || Unposted(listing, old(postedFiles)) == []
                || exists p :: p in Unposted(listing, old(postedFiles)) && p !in bodies
      ensures NoDuplicates(old(postedFiles)) ==> NoDuplicates(postedFiles)
    {
      var contentData := GetRandomContent(dirExists, listing, bodies);
      if contentData.None? {
        return Skipped;
      }
      var path := contentData.value.filePath;
      assert path in Unposted(listing, postedFiles);
      var formatted := FormatContent(contentData.value.content, settings, stamp);
      if publish(formatted) {
        postedFiles := postedFiles + [path];
        attempt := Posted(path, formatted);
      } else {
        attempt := PublishFailed(path, formatted);
      }
      if NoDuplicates(old(postedFiles)) {
        RecordKeepsNoDuplicates(old(postedFiles), listing, attempt);
      }
    }
  }

  /** Two runs over a directory holding only "a.md" with the text
      "Hello world", a 20-character limit, the tag "#x", no timestamp and a
      client that accepts everything: the first run publishes
      "Hello world\n#x" and records "a.md"; the second finds nothing left. */
  method TwoRunsScenario() returns (first: Attempt, second: Attempt, history: seq<string>)
    ensures first == Posted("a.md", "Hello world\n#x")
    ensures second == Skipped
    ensures history == ["a.md"]
  {
    var settings := ContentSettings(20, ["#x"], false);
    var bot := new TwitterBot(settings, None);
    var bodies := map["a.md" := "Hello world"];
    ScenarioFacts();
    first := bot.PostTweet(true, ["a.md"], bodies, "", _ => true);
    second := bot.PostTweet(true, ["a.md"], bodies, "", _ => true);
    history := bot.postedFiles;
  }

  /** The values the scenario goes through. */
  lemma ScenarioFacts()
    ensures Unposted(["a.md"], []) == ["a.md"]
    ensures Unposted(["a.md"], ["a.md"]) == []
    ensures FormatContent(Strip("Hello world"), ContentSettings(20, ["#x"], false), "")
            == "Hello world\n#x"
  {
    assert ["a.md"][1..] == [];
    assert Unposted([], ["a.md"]) == [];
    assert !IsSpace('H') && !IsSpace('d');
    assert Strip("Hello world") == "Hello world";
    FormatShortExample("");
  }
}
