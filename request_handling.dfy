/**
 * The decisions of the request handler, as functions: how the request URL
 * becomes the relative path that is served, and how the outcome of reading
 * the resolved file becomes the response.
 */
module RequestHandling {
  import opened Wrappers
  import opened NodeFs
  import opened NodeHttp
  import opened Mime

  const IndexPath := "./index.html"
  const ContentTypeName := "Content-Type"
  const NotFoundPrefix := "NOT FOUND: "
  const ErrorPrefix := "ERROR: "

  /**
   * The relative path served for `request.url`: the index page when the URL
   * is missing or exactly "/", and otherwise the URL behind a ".".
   */
  function MassageUrl(requestUrl: Option<string>): (url: string)
    ensures |url| >= 1 && url[0] == '.'
  {
    if requestUrl.Some? && requestUrl.value != "/" then "." + requestUrl.value else IndexPath
  }

  /** The response for the massaged URL, the resolved file name and the read's outcome. */
  function Respond(url: string, filename: string, outcome: ReadOutcome, table: MimeTable): (r: Response)
    ensures r.status == 200 || r.status == 404 || r.status == 500
  {
    match outcome
    case Ok(data) => Response(200, [Header(ContentTypeName, ContentTypeFor(table, filename))], Bytes(data))
    case NotFound => Response(404, [], Text(NotFoundPrefix + url))
    case Other(message) => Response(500, [], Text(ErrorPrefix + message))
  }

  /** Any URL other than "/" is served relative to the root, with its text kept after the ".". */
  lemma MassageUrlKeepsUrl(u: string)
    requires u != "/"
    ensures MassageUrl(Some(u)) == "." + u
    ensures MassageUrl(Some(u))[1..] == u
  {
  }

  /** Distinct URLs other than "/" are served from distinct relative paths. */
  lemma MassageUrlInjective(u1: string, u2: string)
    requires u1 != "/" && u2 != "/"
    requires MassageUrl(Some(u1)) == MassageUrl(Some(u2))
    ensures u1 == u2
  {
    assert MassageUrl(Some(u1))[1..] == u1;
    assert MassageUrl(Some(u2))[1..] == u2;
  }

  /**
   * The index page is served for a missing URL, for "/" and for
   * "/index.html", and for no other URL.
   */
  lemma MassageUrlIsIndexExactly(requestUrl: Option<string>)
    ensures MassageUrl(requestUrl) == IndexPath
        <==> requestUrl == None || requestUrl == Some("/") || requestUrl == Some("/index.html")
  {
    if requestUrl.Some? && requestUrl.value != "/" {
      var u := requestUrl.value;
      if "." + u == IndexPath {
        assert u == ("." + u)[1..] == IndexPath[1..];
      }
    }
  }

  /** The empty URL is not "/": it becomes ".", the root directory itself. */
  lemma EmptyUrlIsRoot()
    ensures MassageUrl(Some("")) == "."
  {
  }

  /**
   * Each outcome has its own status, and only a successful read sets a
   * Content-Type header; the three cases never overlap.
   */
  lemma {:induction false} OutcomeDeterminesStatus(url: string, filename: string, outcome: ReadOutcome, table: MimeTable)
    ensures Respond(url, filename, outcome, table).status == 200 <==> outcome.Ok?
    ensures Respond(url, filename, outcome, table).status == 404 <==> outcome.NotFound?
    ensures Respond(url, filename, outcome, table).status == 500 <==> outcome.Other?
    ensures Respond(url, filename, outcome, table).headers != [] <==> outcome.Ok?
  {
  }

  /**
   * A successful read is answered 200 with one Content-Type header, taken
   * from the resolved file name, and with the file's bytes unchanged.
   */
  lemma SuccessResponse(url: string, filename: string, data: seq<byte>, table: MimeTable)
    ensures Respond(url, filename, Ok(data), table).status == 200
    ensures Respond(url, filename, Ok(data), table).headers == [Header(ContentTypeName, ContentTypeFor(table, filename))]
    ensures Respond(url, filename, Ok(data), table).body == Bytes(data)
  {
  }

  /** The Content-Type follows the resolved file name: the URL it came from does not matter. */
  lemma ContentTypeIgnoresUrl(url1: string, url2: string, filename: string, data: seq<byte>, table: MimeTable)
    ensures Respond(url1, filename, Ok(data), table) == Respond(url2, filename, Ok(data), table)
  {
  }

  /** A missing file is answered 404 without headers, the body naming the relative path. */
  lemma NotFoundResponse(url: string, filename: string, table: MimeTable)
    ensures Respond(url, filename, NotFound, table) == Response(404, [], Text(NotFoundPrefix + url))
    ensures Respond(url, filename, NotFound, table).body.text[|NotFoundPrefix|..] == url
  {
  }

  /** Any other failure is answered 500 without headers, the body carrying the error's message. */
  lemma ErrorResponse(url: string, filename: string, message: string, table: MimeTable)
    ensures Respond(url, filename, Other(message), table) == Response(500, [], Text(ErrorPrefix + message))
    ensures Respond(url, filename, Other(message), table).body.text[|ErrorPrefix|..] == message
  {
  }

  /** The response tells which outcome the read had: no two outcomes are answered alike. */
  lemma {:induction false} ResponseDeterminesOutcome(url: string, filename: string, o1: ReadOutcome, o2: ReadOutcome, table: MimeTable)
    requires Respond(url, filename, o1, table) == Respond(url, filename, o2, table)
    ensures o1 == o2
  {
    OutcomeDeterminesStatus(url, filename, o1, table);
    OutcomeDeterminesStatus(url, filename, o2, table);
    if o1.Other? {
      assert o1.message == Respond(url, filename, o1, table).body.text[|ErrorPrefix|..];
      assert o2.message == Respond(url, filename, o2, table).body.text[|ErrorPrefix|..];
    }
  }

  /** A request for a missing file names its "./"-relative path: "/missing.txt" gives "NOT FOUND: ./missing.txt". */
  lemma MissingFileScenario(filename: string, table: MimeTable)
    ensures Respond(MassageUrl(Some("/missing.txt")), filename, NotFound, table).body
         == Text("NOT FOUND: ./missing.txt")
  {
  }

  /**
   * The served fixture: "/test.txt" resolved under a root, read as
   * "foobarbaz\n", is answered 200 with exactly those bytes, as the generic
   * type because ".txt" has no default entry.
   */
  lemma {:induction false} FixtureScenario(root: string, data: seq<byte>)
    requires root != [] && root[|root| - 1] != NodePath.Separator
    requires data == [102, 111, 111, 98, 97, 114, 98, 97, 122, 10]
    ensures Respond(MassageUrl(Some("/test.txt")), root + "/test" + ".txt", Ok(data), Defaults)
         == Response(200, [Header(ContentTypeName, OctetStream)], Bytes(data))
  {
    var stem := root + "/test";
    assert stem[|stem| - 1] == 't';
    assert NodePath.IsExtension(".txt");
    assert ".txt" !in Defaults;
    ContentTypeOfNamedFile(Defaults, stem, ".txt");
    SuccessResponse(MassageUrl(Some("/test.txt")), stem + ".txt", data, Defaults);
  }
}
