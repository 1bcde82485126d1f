/** The server object: its root, its MIME table, and its request handler. */
module Server {
  import opened Wrappers
  import opened NodePath
  import opened NodeFs
  import opened NodeHttp
  import opened Mime
  import opened RequestHandling

  class StaticServer {
    /** The absolute root of the served files, fixed when the server is built. */
    const root: string

    /** `path.resolve`, used both for the root and for every requested file. */
    const resolve: Resolver

    /** Extensions mapped to MIME types; grows through SetMimeType. */
    var mimeTypes: MimeTable

    /** No default entry is ever lost. */
    ghost predicate Valid()
      reads this
    {
      Defaults.Keys <= mimeTypes.Keys
    }

    /** A server for `root`, resolved once, starting from the default table. */
    constructor (root: string, resolve: Resolver)
      ensures this.root == resolve([root])
      ensures this.resolve == resolve
      ensures mimeTypes == Defaults
      ensures Valid()
    {
      this.root := resolve([root]);
      this.resolve := resolve;
      mimeTypes := Defaults;
    }

    /** Maps `extension` to `contentType`, replacing any earlier entry. */
    method SetMimeType(extension: string, contentType: string)
      requires Valid()
      modifies this
      ensures mimeTypes == old(mimeTypes)[extension := contentType]
      ensures mimeTypes.Keys == old(mimeTypes).Keys + {extension}
      ensures Valid()
    {
      mimeTypes := mimeTypes[extension := contentType];
    }

    /** The content type for `filename`: its extension's entry, or the generic fallback. */
    function GetContentType(filename: string): (t: string)
      reads this
      ensures Extname(filename) in mimeTypes ==> t == mimeTypes[Extname(filename)]
      ensures Extname(filename) !in mimeTypes ==> t == OctetStream
    {
      ContentTypeFor(mimeTypes, filename)
    }

    /**
     * Serves one request: the URL is massaged into a relative path, resolved
     * against the root, read, and answered with one `writeHead` and one
     * `end`.  Neither the root nor the table changes.
     */
    method HandleRequest(requestUrl: Option<string>, readFile: FileReader, response: ServerResponse)
      requires response.events == []
      modifies response
      ensures var url := MassageUrl(requestUrl);
              var filename := resolve([root, url]);
              var r := Respond(url, filename, readFile(filename), mimeTypes);
              response.events == [HeadWritten(r.status, r.headers), Ended(r.body)]
      ensures mimeTypes == old(mimeTypes)
    {
      var url := IndexPath;
      if requestUrl.Some? && requestUrl.value != "/" {
        url := "." + requestUrl.value;
      }

      assert url == MassageUrl(requestUrl);

      var filename := resolve([root, url]);
      ghost var r := Respond(url, filename, readFile(filename), mimeTypes);

      match readFile(filename) {
        case Ok(data) =>
          response.WriteHead(200, [Header(ContentTypeName, GetContentType(filename))]);
          response.End(Bytes(data));
          assert response.events == [HeadWritten(r.status, r.headers), Ended(r.body)];
        case NotFound =>
          var message := NotFoundPrefix + url;
          response.WriteHead(404, []);
          response.End(Text(message));
          assert response.events == [HeadWritten(r.status, r.headers), Ended(r.body)];
        case Other(errorMessage) =>
          var message := ErrorPrefix + errorMessage;
          response.WriteHead(500, []);
          response.End(Text(message));
          assert response.events == [HeadWritten(r.status, r.headers), Ended(r.body)];
      }
    }
  }

  /** The contents of the served fixture file, "foobarbaz\n". */
  const FixtureContents: seq<byte> := [102, 111, 111, 98, 97, 114, 98, 97, 122, 10]

  /**
   * The repository's integration test without the network: a server rooted at
   * the fixtures directory answers "/test.txt" with the fixture's bytes.
   */
  method BasicTest(fixtures: string, resolve: Resolver, readFile: FileReader) returns (body: Body)
    requires readFile(resolve([resolve([fixtures]), "./test.txt"])) == Ok(FixtureContents)
    ensures body == Bytes(FixtureContents)
  {
    var server := new StaticServer(fixtures, resolve);
    var response := new ServerResponse();
    ghost var url := MassageUrl(Some("/test.txt"));
    assert url == "./test.txt";
    server.HandleRequest(Some("/test.txt"), readFile, response);
    SuccessResponse(url, resolve([server.root, url]), FixtureContents, server.mimeTypes);
    body := response.events[1].body;
  }
}
