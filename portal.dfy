/**
  The script's dealings with the homework server, with the network replaced
  by a function from requests to responses: the settings lines, the page
  address, the ordered checks on a returned page, the proxy mode that a
  blocked page switches on for the rest of the run, the option the user is
  allowed to pick, and where a downloaded file goes.
*/
module Portal {
  import opened Wrappers
  import opened PyStr

  // ---------------------------------------------------------------------
  // Settings and addresses
  // ---------------------------------------------------------------------

  const BaseUrl := "http://bert.stuy.edu"
  /** The page names posted to the server. */
  const SubmitPage := "submit_homework2"
  const ViewPage := "homework_view2"
  /** The name the viewed file is first saved under, to show it. */
  const PreviewFile := "/tmp/homeworkserver"

  const Quote := '"'

  /** How many times `c` occurs in `s`. */
  function Occurrences(s: string, c: char): nat
  {
    multiset(s)[c]
  }

  /**
    The first match of the pattern `"([^"]*)"` on a settings line: the text
    between its first two double quotes; there is no match (and taking the
    first one is an `IndexError`) when the line has fewer than two.
  */
  function QuotedValue(line: string): (r: Result<string, PyError>)
    ensures r.Err? <==> Occurrences(line, Quote) < 2
    ensures r.Err? ==> r.error == IndexError
    ensures r.Ok? ==> Quote !in r.value
  {
    match CutAt(line, Quote)
    case None => Err(IndexError)
    case Some((before, rest)) =>
      assert multiset(line) == multiset(before) + multiset([Quote]) + multiset(rest);
      match CutAt(rest, Quote)
      case None => Err(IndexError)
      case Some((value, after)) =>
        assert multiset(rest) == multiset(value) + multiset([Quote]) + multiset(after);
        Ok(value)
  }

  /** A value written between quotes, after text without quotes, is read back. */
  lemma QuotedValueOf(before: string, value: string, after: string)
    requires Quote !in before && Quote !in value
    ensures QuotedValue(before + [Quote] + value + [Quote] + after) == Ok(value)
  {
    var rest := value + [Quote] + after;
    assert before + [Quote] + value + [Quote] + after == before + [Quote] + rest;
    CutAtOf(before, rest, Quote);
    CutAtOf(value, after, Quote);
  }

  /** The six values of the settings file, one per line, in this order. */
  datatype Settings = Settings(name: string, password: string, period: string, studentId: string, teacher: string, semester: string)

  /** Reads the first six lines of the settings file; a missing line or a line without a quoted value is an `IndexError`. */
  function ReadSettings(lines: seq<string>): (r: Result<Settings, PyError>)
    ensures r.Ok? <==> |lines| >= 6 && forall i :: 0 <= i < 6 ==> QuotedValue(lines[i]).Ok?
    ensures r.Err? ==> r.error == IndexError
    ensures r.Ok? ==> r.value.teacher == QuotedValue(lines[4]).value && r.value.semester == QuotedValue(lines[5]).value
  {
    if |lines| < 6 then Err(IndexError)
    else if !(forall i :: 0 <= i < 6 ==> QuotedValue(lines[i]).Ok?) then Err(IndexError)
    else
      Ok(Settings(QuotedValue(lines[0]).value, QuotedValue(lines[1]).value, QuotedValue(lines[2]).value,
                  QuotedValue(lines[3]).value, QuotedValue(lines[4]).value, QuotedValue(lines[5]).value))
  }

  /** The characters of `pages.py`, which is what `strip` is given. */
  const PagesPy: set<char> := {'p', 'a', 'g', 'e', 's', '.', 'y'}

  /** The address every page is posted to. */
  function Endpoint(teacher: string, semester: string): string
  {
    BaseUrl + "/" + teacher + "/" + semester + "/pages.py"
  }

  /** The address of a submitted file: the endpoint stripped of the characters of `pages.py` at both ends, then the link. */
  function DownloadUrl(teacher: string, semester: string, link: string): string
  {
    Strip(Endpoint(teacher, semester), PagesPy) + link
  }

  /**
    Stripping the characters of `pages.py` takes off exactly the `pages.py`
    at the end: the `/` before it and the `h` at the front are not among them.
  */
  lemma DownloadUrlShape(teacher: string, semester: string, link: string)
    ensures DownloadUrl(teacher, semester, link) == BaseUrl + "/" + teacher + "/" + semester + "/" + link
  {
    var dir := BaseUrl + "/" + teacher + "/" + semester + "/";
    var e := Endpoint(teacher, semester);
    assert e == dir + "pages.py";
    assert dir[0] == 'h';
    StripTail(dir, "pages.py", PagesPy);
  }

  /** `url.split("/")[-1]`: the last `/`-separated segment of the address. */
  function LastSegment(url: string): (r: string)
    ensures '/' !in r
    ensures |r| <= |url| && url[|url| - |r|..] == r
    ensures |r| < |url| ==> url[|url| - |r| - 1] == '/'
  {
    var parts := Split(url, '/');
    LastPartIsSuffix(url, '/');
    parts[|parts| - 1]
  }

  /** The file a download is written to: the given name when it is not empty, else the last segment of the address. */
  function FileName(url: string, name: string): (r: string)
    ensures |name| > 0 ==> r == name
    ensures |name| == 0 ==> '/' !in r && |r| <= |url| && url[|url| - |r|..] == r
  {
    if |name| > 0 then name else LastSegment(url)
  }

  // ---------------------------------------------------------------------
  // What a returned page says
  // ---------------------------------------------------------------------

  /** The verdict on a page, in the order the checks are made; only the first three abort. */
  datatype Outcome = PageNotFound | InvalidCredentials | InvalidPeriod | Blocked | Proceed

  /** Position of an outcome in the chain of checks. */
  function Rank(o: Outcome): nat
  {
    match o
    case PageNotFound => 0
    case InvalidCredentials => 1
    case InvalidPeriod => 2
    case Blocked => 3
    case Proceed => 4
  }

  /** The text whose presence gives the outcome. */
  function Marker(o: Outcome): string
    requires o != Proceed
  {
    match o
    case PageNotFound => "not found"
    case InvalidCredentials => "Incorrect password"
    case InvalidPeriod => "Cannot find class"
    case Blocked => "Access to this site is blocked"
  }

  predicate Aborts(o: Outcome)
  {
    Rank(o) < 3
  }

  /**
    The `if`/`elif` chain on a fetched page: the outcome of the first marker
    the page contains, and `Proceed` when it contains none.
  */
  function Classify(page: string): (o: Outcome)
    ensures o != Proceed ==> Contains(page, Marker(o))
    ensures Rank(o) > 0 ==> !Contains(page, Marker(PageNotFound))
    ensures Rank(o) > 1 ==> !Contains(page, Marker(InvalidCredentials))
    ensures Rank(o) > 2 ==> !Contains(page, Marker(InvalidPeriod))
    ensures Rank(o) > 3 ==> !Contains(page, Marker(Blocked))
  {
    if Contains(page, Marker(PageNotFound)) then PageNotFound
    else if Contains(page, Marker(InvalidCredentials)) then InvalidCredentials
    else if Contains(page, Marker(InvalidPeriod)) then InvalidPeriod
    else if Contains(page, Marker(Blocked)) then Blocked
    else Proceed
  }

  /** An earlier marker hides every later one: the outcome is never later than a marker the page holds. */
  lemma ClassifyFirst(page: string, e: Outcome)
    requires e != Proceed && Contains(page, Marker(e))
    ensures Rank(Classify(page)) <= Rank(e)
  {
  }

  // ---------------------------------------------------------------------
  // The session: requests made and the proxy switch
  // ---------------------------------------------------------------------

  /** A request the script makes, with whether it goes through the school proxy. */
  datatype Request =
    | Post(page: string, proxied: bool)
    | Get(url: string, proxied: bool)
    | Upload(assignment: string, proxied: bool)

  /** Some request in `sent` went through the proxy. */
  ghost predicate AnyProxied(sent: seq<Request>)
  {
    exists i :: 0 <= i < |sent| && sent[i].proxied
  }

  /** One more request: the log holds a proxied request iff it did before or the new one is. */
  lemma AnyProxiedAppend(sent: seq<Request>, r: Request)
    ensures AnyProxied(sent + [r]) <==> AnyProxied(sent) || r.proxied
  {
    var after := sent + [r];
    if AnyProxied(sent) {
      var i :| 0 <= i < |sent| && sent[i].proxied;
      assert after[i] == sent[i];
    }
    if r.proxied {
      assert after[|sent|] == r;
    }
  }

  /** A server reply: the HTTP status and the body. */
  datatype Response = Response(status: int, text: string)

  /** `response.ok` of `requests`: false exactly for a client error (4xx) or a server error (5xx). */
  predicate Good(status: int)
  {
    !(400 <= status < 600)
  }

  /** The network: the reply each request gets. */
  type Server = Request -> Response

  /**
    The run's state: the `use_proxy` flag and the requests made so far.
    The flag starts off, only a page fetched through the proxy turns it on,
    and nothing turns it off again.
  */
  class Session {
    var useProxy: bool
    var sent: seq<Request>

    /** The flag is on exactly when some request went through the proxy. */
    ghost predicate Valid()
      reads this
    {
      useProxy <==> AnyProxied(sent)
    }

    constructor ()
      ensures Valid() && !useProxy && sent == []
    {
      useProxy := false;
      sent := [];
    }

    /** `get_page`: posts the page request, through the proxy when asked, which switches the flag on. */
    method GetPage(page: string, proxy: bool, server: Server) returns (text: string)
      requires Valid()
      modifies this
      ensures Valid()
      ensures sent == old(sent) + [Post(page, proxy)]
      ensures useProxy == (old(useProxy) || proxy)
      ensures text == server(Post(page, proxy)).text
    {
      text := server(Post(page, proxy)).text;
      AnyProxiedAppend(sent, Post(page, proxy));
      sent := sent + [Post(page, proxy)];
      if proxy {
        useProxy := true;
      }
    }

    /**
      Fetching a page as `submit_homework` and `view_homework` do: the page
      is checked once; a blocked page is fetched again through the proxy and
      that second page is used without being checked.
    */
    method Fetch(page: string, server: Server) returns (o: Outcome, text: string)
      requires Valid()
      modifies this
      ensures Valid()
      ensures o == Classify(server(Post(page, false)).text)
      ensures sent == old(sent) + [Post(page, false)] + (if o == Blocked then [Post(page, true)] else [])
      ensures useProxy == (old(useProxy) || o == Blocked)
      ensures text == server(Post(page, o == Blocked)).text
    {
      text := GetPage(page, false, server);
      o := Classify(text);
      if o == Blocked {
        text := GetPage(page, true, server);
      }
    }

    /**
      `download_file`: the file is opened (and emptied) first, then the address
      is fetched through the proxy iff the flag is on; the body is written only
      when the reply is good (not a 4xx or 5xx status).
    */
    method Download(url: string, name: string, server: Server) returns (file: string, contents: string)
      requires Valid()
      modifies this
      ensures Valid()
      ensures useProxy == old(useProxy)
      ensures sent == old(sent) + [Get(url, useProxy)]
      ensures file == FileName(url, name)
      ensures contents == if Good(server(Get(url, useProxy)).status) then server(Get(url, useProxy)).text else ""
    {
      file := FileName(url, name);
      var reply := server(Get(url, useProxy));
      AnyProxiedAppend(sent, Get(url, useProxy));
      sent := sent + [Get(url, useProxy)];
      contents := "";
      if Good(reply.status) {
        contents := reply.text;
      }
    }

    /** The upload at the end of `submit_homework`: through the proxy iff the flag is on; it succeeded iff the status is 200. */
    method Submit(assignment: string, server: Server) returns (ok: bool)
      requires Valid()
      modifies this
      ensures Valid()
      ensures useProxy == old(useProxy)
      ensures sent == old(sent) + [Upload(assignment, useProxy)]
      ensures ok <==> server(Upload(assignment, useProxy)).status == 200
    {
      var reply := server(Upload(assignment, useProxy));
      AnyProxiedAppend(sent, Upload(assignment, useProxy));
      sent := sent + [Upload(assignment, useProxy)];
      ok := reply.status == 200;
    }
  }

  // ---------------------------------------------------------------------
  // Choosing an option
  // ---------------------------------------------------------------------

  /** The homework a typed option names when viewing: the option itself, else the option with a `0` in front. */
  function ViewChoice(option: string, keys: set<string>): (r: Option<string>)
    ensures r.Some? ==> r.value in keys
    ensures r.None? <==> option !in keys && "0" + option !in keys
    ensures option in keys ==> r == Some(option)
    ensures r.Some? && r.value != option ==> r.value == "0" + option
  {
    if option in keys then Some(option)
    else if "0" + option in keys then Some("0" + option)
    else None
  }

  /** The assignment a typed option names when submitting: only an exact title is accepted. */
  function SubmitChoice(option: string, keys: set<string>): (r: Option<string>)
    ensures r.Some? <==> option in keys
    ensures r.Some? ==> r.value == option
  {
    if option in keys then Some(option) else None
  }

  /** A typed option is never rejected when viewing if it is accepted when submitting. */
  lemma ViewAcceptsMore(option: string, keys: set<string>)
    ensures SubmitChoice(option, keys).Some? ==> ViewChoice(option, keys) == SubmitChoice(option, keys)
    ensures SubmitChoice(option, keys).None? && ViewChoice(option, keys).Some? ==> ViewChoice(option, keys) == Some("0" + option)
  {
  }

  /** The rule of the view prompt, as a function of the typed text. */
  function ViewRule(keys: set<string>): string -> Option<string>
  {
    option => ViewChoice(option, keys)
  }

  /** The rule of the submit prompt, as a function of the typed text. */
  function SubmitRule(keys: set<string>): string -> Option<string>
  {
    option => SubmitChoice(option, keys)
  }

  /**
    The prompt loop: asks again after every rejected answer. `answers` are the
    lines the user types, in order; the result is the first accepted choice and
    how many answers were read, or `None` when every answer was rejected.
  */
  method Prompt(answers: seq<string>, rule: string -> Option<string>) returns (choice: Option<string>, read: nat)
    ensures read <= |answers|
    ensures forall i :: 0 <= i < read - 1 ==> rule(answers[i]).None?
    ensures choice.None? ==> read == |answers| && forall i :: 0 <= i < |answers| ==> rule(answers[i]).None?
    ensures choice.Some? ==> 0 < read && rule(answers[read - 1]) == choice
  {
    read := 0;
    choice := None;
    while read < |answers|
      invariant read <= |answers|
      invariant forall i :: 0 <= i < read ==> rule(answers[i]).None?
    {
      var r := rule(answers[read]);
      read := read + 1;
      if r.Some? {
        choice := r;
        return;
      }
    }
  }

  /** The `k`-th answer is the first the view prompt accepts, and it names `choice`. */
  predicate FirstViewAnswer(answers: seq<string>, keys: set<string>, choice: string)
  {
    exists k :: 0 <= k < |answers| && ViewChoice(answers[k], keys) == Some(choice)
                && forall j :: 0 <= j < k ==> ViewChoice(answers[j], keys).None?
  }

  /** The `k`-th answer is the first exact title typed, and it is `choice`. */
  predicate FirstSubmitAnswer(answers: seq<string>, keys: set<string>, choice: string)
  {
    exists k :: 0 <= k < |answers| && answers[k] == choice
                && forall j :: 0 <= j < k ==> answers[j] !in keys
  }

  /** The view prompt: the homework named by the first accepted answer, or none when every answer is rejected. */
  method ViewPrompt(answers: seq<string>, keys: set<string>) returns (choice: Option<string>)
    ensures choice.None? ==> forall k :: 0 <= k < |answers| ==> ViewChoice(answers[k], keys).None?
    ensures choice.Some? ==> choice.value in keys && FirstViewAnswer(answers, keys, choice.value)
  {
    var read;
    choice, read := Prompt(answers, ViewRule(keys));
    if choice.Some? {
      forall j | 0 <= j < read - 1
        ensures ViewChoice(answers[j], keys).None?
      {
        assert ViewRule(keys)(answers[j]).None?;
      }
      assert ViewRule(keys)(answers[read - 1]) == choice;
    } else {
      forall j | 0 <= j < |answers|
        ensures ViewChoice(answers[j], keys).None?
      {
        assert ViewRule(keys)(answers[j]).None?;
      }
    }
  }

  /** The submit prompt: the first answer that is an exact title, or none when no answer is one. */
  method SubmitPrompt(answers: seq<string>, keys: set<string>) returns (choice: Option<string>)
    ensures choice.None? ==> forall k :: 0 <= k < |answers| ==> answers[k] !in keys
    ensures choice.Some? ==> choice.value in keys && FirstSubmitAnswer(answers, keys, choice.value)
  {
    var read;
    choice, read := Prompt(answers, SubmitRule(keys));
    if choice.Some? {
      forall j | 0 <= j < read - 1
        ensures answers[j] !in keys
      {
        assert SubmitRule(keys)(answers[j]).None?;
      }
      assert SubmitRule(keys)(answers[read - 1]) == choice;
    } else {
      forall j | 0 <= j < |answers|
        ensures answers[j] !in keys
      {
        assert SubmitRule(keys)(answers[j]).None?;
      }
    }
  }
}
