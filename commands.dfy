/**
  The two commands of the script, `-v` (view a submitted homework) and
  `-s FILE` (submit a homework), put together from the session, the page
  parsing and the prompt. The HTML selection is a parameter: `select` gives
  the label texts and link targets of a page, `options` the option texts.
  What the user types is given as the sequence of lines typed.
*/
module Commands {
  import opened Wrappers
  import opened PyStr
  import opened Dates
  import opened Extract
  import opened Portal

  /** How `view_homework` ends; `listing` is the list of homeworks shown. */
  datatype ViewEnd =
    | ViewAborted(outcome: Outcome)
    | NoHomeworks
    | NoViewChoice(listing: seq<(string, string)>)
    | Viewed(listing: seq<(string, string)>, choice: string, url: string, copy: Option<string>)

  /** How `submit_homework` ends; `listing` is the list of assignments shown. */
  datatype SubmitEnd =
    | SubmitAborted(outcome: Outcome)
    | ParseFailed(error: PyError)
    | NoSubmitChoice(listing: seq<(string, string)>)
    | Submitted(listing: seq<(string, string)>, choice: string, ok: bool)

  /** The keys of an item list. */
  function Keys(items: seq<(string, string)>): (keys: set<string>)
    ensures forall k :: k in keys <==> exists i :: 0 <= i < |items| && items[i].0 == k
  {
    set i | 0 <= i < |items| :: items[i].0
  }

  /** `answer.lower() == "y"`: the answer is `y` or `Y` and nothing else. */
  function Yes(answer: string): (yes: bool)
    ensures yes <==> answer == "y" || answer == "Y"
  {
    Lower(answer) == "y"
  }

  /** The page requests one fetch makes: a proxied second one only for a blocked page. */
  function Posts(page: string, o: Outcome): seq<Request>
  {
    [Post(page, false)] + (if o == Blocked then [Post(page, true)] else [])
  }

  /** The page a fetch ends up using. */
  function Fetched(page: string, server: Server): string
  {
    server(Post(page, Classify(server(Post(page, false)).text) == Blocked)).text
  }

  /**
    `view_homework`: fetch and check the view page, pair the labels with the
    links and show them, ask for a homework until one is accepted, then
    download it to the preview file and, if the user says so, again under its
    own name.
  */
  method ViewHomework(session: Session, settings: Settings, select: string -> (seq<string>, seq<string>),
                      answers: seq<string>, keep: string, server: Server) returns (r: ViewEnd)
    requires session.Valid()
    modifies session
    ensures session.Valid()
    ensures var o := Classify(server(Post(ViewPage, false)).text);
      && session.useProxy == (old(session.useProxy) || o == Blocked)
      && (r.ViewAborted? <==> Aborts(o))
      && (r.ViewAborted? ==> r.outcome == o)
      && session.sent == old(session.sent) + Posts(ViewPage, o) + Downloads(r, session.useProxy)
    ensures r.NoViewChoice? || r.Viewed? ==>
      SortedItems(r.listing, Homeworks(select(Fetched(ViewPage, server)).0, select(Fetched(ViewPage, server)).1))
    ensures r.NoViewChoice? || r.Viewed? ==> |r.listing| > 0
    ensures r.NoHomeworks? ==> Homeworks(select(Fetched(ViewPage, server)).0, select(Fetched(ViewPage, server)).1) == map[]
    ensures r.NoViewChoice? ==> forall k :: 0 <= k < |answers| ==> ViewChoice(answers[k], Keys(r.listing)).None?
    ensures r.Viewed? ==>
      && FirstViewAnswer(answers, Keys(r.listing), r.choice)
      && (exists i :: 0 <= i < |r.listing| && r.listing[i].0 == r.choice
                       && r.url == DownloadUrl(settings.teacher, settings.semester, r.listing[i].1))
      && (Yes(keep) <==> r.copy.Some?)
      && (r.copy.Some? ==> r.copy.value == FileName(r.url, ""))
  {
    var o, page := session.Fetch(ViewPage, server);
    assert session.sent == old(session.sent) + Posts(ViewPage, o);
    if Aborts(o) {
      return ViewAborted(o);
    }
    var (labels, links) := select(page);
    var items := ParseHomeworks(labels, links);
    if |items| == 0 {
      SortedItemsEmpty(items, Homeworks(labels, links));
      return NoHomeworks;
    }
    r := PickAndDownload(session, settings, items, answers, keep, server);
  }

  /**
    The end of `view_homework`, once the homeworks `items` are shown: the
    prompt, then the preview download and the copy the user may ask for.
  */
  method PickAndDownload(session: Session, settings: Settings, items: seq<(string, string)>,
                         answers: seq<string>, keep: string, server: Server) returns (r: ViewEnd)
    requires session.Valid()
    modifies session
    ensures session.Valid()
    ensures (r.NoViewChoice? || r.Viewed?) && r.listing == items
    ensures session.useProxy == old(session.useProxy)
    ensures session.sent == old(session.sent) + Downloads(r, session.useProxy)
    ensures r.NoViewChoice? ==> forall k :: 0 <= k < |answers| ==> ViewChoice(answers[k], Keys(items)).None?
    ensures r.Viewed? ==>
      && FirstViewAnswer(answers, Keys(items), r.choice)
      && (exists i :: 0 <= i < |items| && items[i].0 == r.choice
                       && r.url == DownloadUrl(settings.teacher, settings.semester, items[i].1))
      && (Yes(keep) <==> r.copy.Some?)
      && (r.copy.Some? ==> r.copy.value == FileName(r.url, ""))
  {
    var choice := ViewPrompt(answers, Keys(items));
    if choice.None? {
      return NoViewChoice(items);
    }
    var option := choice.value;
    var link := Lookup(items, option);
    var url := DownloadUrl(settings.teacher, settings.semester, link);
    var _, _ := session.Download(url, PreviewFile, server);
    var copy := None;
    if Yes(keep) {
      var file, _ := session.Download(url, "", server);
      copy := Some(file);
      assert session.sent == old(session.sent) + ([Get(url, session.useProxy)] + [Get(url, session.useProxy)]);
    }
    r := Viewed(items, option, url, copy);
  }

  /** The file requests `view_homework` makes after the page: the preview, then the copy if one was asked for. */
  function Downloads(r: ViewEnd, proxied: bool): seq<Request>
  {
    if r.Viewed? then [Get(r.url, proxied)] + (if r.copy.Some? then [Get(r.url, proxied)] else []) else []
  }

  /** `d[k]` on the item list of a dictionary, for a key it has. */
  function Lookup(items: seq<(string, string)>, k: string): (v: string)
    requires exists i :: 0 <= i < |items| && items[i].0 == k
    ensures exists i :: 0 <= i < |items| && items[i].0 == k && items[i].1 == v
  {
    if items[0].0 == k then items[0].1 else Lookup(items[1..], k)
  }

  /**
    `submit_homework`: fetch and check the submit page, read the assignments
    and their due dates (which can fail) and show them, ask for an assignment
    until an exact title is typed, then upload the file for it.
  */
  method SubmitHomework(session: Session, options: string -> seq<string>, now: DateTime,
                        answers: seq<string>, server: Server) returns (r: SubmitEnd)
    requires session.Valid()
    modifies session
    ensures session.Valid()
    ensures var o := Classify(server(Post(SubmitPage, false)).text);
      && session.useProxy == (old(session.useProxy) || o == Blocked)
      && (r.SubmitAborted? <==> Aborts(o))
      && (r.SubmitAborted? ==> r.outcome == o)
      && session.sent == old(session.sent) + Posts(SubmitPage, o) + (if r.Submitted? then [Upload(r.choice, session.useProxy)] else [])
    ensures r.ParseFailed? ==> Assignments(options(Fetched(SubmitPage, server)), now) == Err(r.error)
    ensures r.NoSubmitChoice? || r.Submitted? ==>
      && Assignments(options(Fetched(SubmitPage, server)), now).Ok?
      && SortedItems(r.listing, Assignments(options(Fetched(SubmitPage, server)), now).value)
    ensures r.NoSubmitChoice? ==> forall k :: 0 <= k < |answers| ==> answers[k] !in Keys(r.listing)
    ensures r.Submitted? ==>
      && r.choice in Keys(r.listing)
      && FirstSubmitAnswer(answers, Keys(r.listing), r.choice)
      && (r.ok <==> server(Upload(r.choice, session.useProxy)).status == 200)
  {
    var o, page := session.Fetch(SubmitPage, server);
    assert session.sent == old(session.sent) + Posts(SubmitPage, o);
    if Aborts(o) {
      return SubmitAborted(o);
    }
    var parsed := ParseAssignments(options(page), now);
    if parsed.Err? {
      return ParseFailed(parsed.error);
    }
    var items := parsed.value;
    var choice := SubmitPrompt(answers, Keys(items));
    if choice.None? {
      return NoSubmitChoice(items);
    }
    var ok := session.Submit(choice.value, server);
    r := Submitted(items, choice.value, ok);
  }
}
