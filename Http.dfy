/** The registration web server of assignment_02/server.py: a dispatch of
    (method, path) to a template, a 404 or a 405, a template server that
    answers 404 for a missing file, and a registration handler that checks
    the two form fields and appends one line to the user database.

    The templates folder is a map from file names to their contents, the
    database file is the list of lines written to it, and the failure of
    opening it is an input (the text of the `IOError`, if one is raised). */
module Http {
  import opened PyText
  import opened Wrappers

  /** What a handler answers: `web.Response(status=..., text=...,
      content_type=...)`. */
  datatype Response = Response(status: nat, text: string, contentType: string)

  /** The content type `web.Response` uses when none is given. */
  const PlainText: string := "text/plain"
  const HtmlType: string := "text/html"

  const FileNotFoundText: string := "404: File Not Found"
  const NotFoundText: string := "404: Not Found"
  const NotAllowedText: string := "405: Method Not Allowed"
  const MissingFieldsText: string := "Error: Both username and email are required"
  const SavingErrorText: string := "Error saving data: "
  const SuccessText: string := "Registration successful!"
  const ReturnHomeLink: string := "<a href=\"/\">Return Home</a>"

  // ------------------------------------------------------------- templates

  /** Lines 11-19, `serve_html`: a template that does not exist is a 404;
      otherwise its content, as HTML, with the status asked for. */
  function ServeHtml(templates: map<string, string>, filename: string, status: nat): (r: Response)
    ensures r.contentType == HtmlType <==> filename in templates
    ensures filename in templates ==> r.status == status && r.text == templates[filename]
    ensures filename !in templates ==> r.status == 404 && r.text == FileNotFoundText
  {
    if filename !in templates then Response(404, FileNotFoundText, PlainText)
    else Response(status, templates[filename], HtmlType)
  }

  // ---------------------------------------------------------------- routing

  datatype Request = Request(verb: string, path: string)

  /** Where `handle_request` sends a request. */
  datatype Route = Template(name: string) | NotFound | Register | NotAllowed

  /** Lines 48-64, `handle_request`: the dispatch on method and path. */
  function RouteOf(req: Request): Route {
    if req.verb == "GET" then
      if req.path == "/" then Template("index.html")
      else if req.path == "/index.html" then Template("index.html")
      else if req.path == "/register.html" then Template("register.html")
      else NotFound
    else if req.verb == "POST" && (req.path == "/register.html" || req.path == "/submit.html") then Register
    else NotAllowed
  }

  /** Each route is taken for exactly the requests the handler sends there. */
  lemma RouteSpec(req: Request)
    ensures RouteOf(req) == Template("index.html") <==> req.verb == "GET" && req.path in {"/", "/index.html"}
    ensures RouteOf(req) == Template("register.html") <==> req.verb == "GET" && req.path == "/register.html"
    ensures RouteOf(req) == NotFound <==>
              req.verb == "GET" && req.path !in {"/", "/index.html", "/register.html"}
    ensures RouteOf(req) == Register <==>
              req.verb == "POST" && req.path in {"/register.html", "/submit.html"}
    ensures RouteOf(req) == NotAllowed <==>
              req.verb != "GET" && !(req.verb == "POST" && req.path in {"/register.html", "/submit.html"})
    ensures RouteOf(req).Template? ==> RouteOf(req).name in {"index.html", "register.html"}
  {
  }

  /** The answer of every route but registration, which changes the database. */
  function Answer(templates: map<string, string>, route: Route): (r: Response)
    requires route != Register
  {
    match route
    case Template(name) => ServeHtml(templates, name, 200)
    case NotFound => Response(404, NotFoundText, PlainText)
    case NotAllowed => Response(405, NotAllowedText, PlainText)
  }

  /** `/` and `/index.html` are the same page, and a request that is not
      routed to a template is answered 404 or 405 without reading one. */
  lemma AnswerSpec(templates: map<string, string>, req: Request)
    requires RouteOf(req) != Register
    ensures req.verb == "GET" && req.path in {"/", "/index.html"} ==>
              Answer(templates, RouteOf(req)) == ServeHtml(templates, "index.html", 200)
    ensures req.verb == "GET" && req.path !in {"/", "/index.html", "/register.html"} ==>
              Answer(templates, RouteOf(req)) == Response(404, NotFoundText, PlainText)
    ensures req.verb != "GET" ==> Answer(templates, RouteOf(req)) == Response(405, NotAllowedText, PlainText)
    ensures Answer(templates, RouteOf(req)).status in {200, 404, 405}
  {
    RouteSpec(req);
  }

  // ----------------------------------------------------------- registration

  /** Lines 24-25: `data.get(key, '').strip()`. */
  function Field(form: map<string, string>, key: string): (v: string)
    ensures v == [] <==> key !in form || AllSpace(form[key])
    ensures v != [] ==> !IsSpace(v[0]) && !IsSpace(v[|v| - 1])
  {
    Strip(if key in form then form[key] else "")
  }

  /** Line 37: the database line of one registration, two spaces between
      the fields. */
  function RecordLine(username: string, email: string): string {
    username + "  " + email + "\n"
  }

  /** A line written for a user name and an e-mail address without spaces
      reads back as those two fields, and is a single line. */
  lemma RecordLineFields(username: string, email: string)
    requires FreeOf(username, " \n") && FreeOf(email, " \n")
    ensures var line := RecordLine(username, email);
            && line[|line| - 1] == '\n'
            && SplitOn(line[..|line| - 1], "  ") == [username, email]
            && forall k :: 0 <= k < |line| - 1 ==> line[k] != '\n'
  {
    var line := RecordLine(username, email);
    assert line[..|line| - 1] == Join([username, email], "  ");
    SplitOnJoin([username, email], "  ");
    forall k | 0 <= k < |line| - 1 ensures line[k] != '\n' {
      if k < |username| {
        assert line[k] == username[k];
      } else if k >= |username| + 2 {
        assert line[k] == email[k - |username| - 2];
      }
    }
  }

  /** Line 40 as written: the two string literals after `content_type=` are
      one literal in Python, so the link becomes part of the content type
      and the page shows only the plain message. */
  const SuccessAsWritten: Response := Response(200, SuccessText, HtmlType + ReturnHomeLink)

  lemma SuccessAsWrittenLosesLink()
    ensures SuccessAsWritten.contentType != HtmlType
    ensures !Contains(SuccessAsWritten.text, ReturnHomeLink)
  {
    assert |SuccessAsWritten.contentType| > |HtmlType|;
    var t := SuccessAsWritten.text;
    ContainsIff(t, ReturnHomeLink);
    assert |t| < |ReturnHomeLink|;
  }

  /** Line 40 as intended: an HTML page with the message and a link home. */
  const Success: Response := Response(200, SuccessText + ReturnHomeLink, HtmlType)

  lemma SuccessSpec()
    ensures Success.status == 200 && Success.contentType == HtmlType
    ensures StartsWith(Success.text, SuccessText) && Contains(Success.text, ReturnHomeLink)
  {
    var t := Success.text;
    assert t[..|SuccessText|] == SuccessText;
    assert OccursAt(t, ReturnHomeLink, |SuccessText|);
    ContainsIff(t, ReturnHomeLink);
  }

  /** What `handle_registration` answers and leaves in the database, for the
      fields of the form and the failure of opening the database, if any. */
  ghost predicate RegistrationOutcome(before: seq<string>, form: map<string, string>, failure: Option<string>,
                                      r: Response, after: seq<string>)
  {
    var username := Field(form, "username");
    var email := Field(form, "email");
    if username == [] || email == [] then
      r == Response(400, MissingFieldsText, PlainText) && after == before
    else if failure.Some? then
      r == Response(500, SavingErrorText + failure.value, PlainText) && after == before
    else
      r == Success && after == before + [RecordLine(username, email)]
  }

  // ------------------------------------------------------------- the server

  class Server {
    /** The templates folder: file name to content. */
    const templates: map<string, string>
    /** `db.txt`, line by line. */
    var db: seq<string>

    constructor (templates: map<string, string>, db: seq<string>)
      ensures this.templates == templates && this.db == db
    {
      this.templates := templates;
      this.db := db;
    }

    /** Lines 21-46, `handle_registration`. */
    method HandleRegistration(form: map<string, string>, failure: Option<string>) returns (r: Response)
      modifies this
      ensures RegistrationOutcome(old(db), form, failure, r, db)
    {
      var username := Field(form, "username");
      var email := Field(form, "email");
      if username == [] || email == [] {
        return Response(400, MissingFieldsText, PlainText);
      }
      if failure.Some? {
        return Response(500, SavingErrorText + failure.value, PlainText);
      }
      db := db + [RecordLine(username, email)];
      r := Success;
    }

    /** Lines 48-64, `handle_request`: registration changes the database as
        `handle_registration` does; every other route answers without
        touching it. */
    method HandleRequest(req: Request, form: map<string, string>, failure: Option<string>) returns (r: Response)
      modifies this
      ensures RouteOf(req) == Register ==> RegistrationOutcome(old(db), form, failure, r, db)
      ensures RouteOf(req) != Register ==> r == Answer(templates, RouteOf(req)) && db == old(db)
    {
      var route := RouteOf(req);
      if route == Register {
        r := HandleRegistration(form, failure);
      } else {
        r := Answer(templates, route);
      }
    }
  }

  /** A valid registration adds exactly one line, after the existing ones,
      and answers the success page; a blank field or a failure to open the
      database leaves it as it was. */
  lemma RegistrationSpec(before: seq<string>, form: map<string, string>, failure: Option<string>,
                         r: Response, after: seq<string>)
    requires RegistrationOutcome(before, form, failure, r, after)
    ensures after == before || (|after| == |before| + 1 && after[..|before|] == before)
    ensures r.status == 200 <==> after != before
    ensures r.status == 400 <==> Field(form, "username") == [] || Field(form, "email") == []
    ensures after != before ==> after[|before|] == RecordLine(Field(form, "username"), Field(form, "email"))
  {
  }
}
