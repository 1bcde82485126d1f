# Static file server — Dafny model

A model of `StaticServer`, a minimal static file server written in TypeScript
for Node. A server is built with a root directory. It keeps a table from file
extensions to MIME types, which starts with eight defaults and grows through
`setMIMEType`. For each request it turns the URL into a path relative to the
root, reads that file, and answers 200 with the bytes and an inferred
`Content-Type`, 404 when the file does not exist, or 500 with the error's
message for any other failure.

The Dafny modules follow the program's parts:

- `NodePath` — `path.extname`, defined by Node's rule for POSIX paths, and the
  type of `path.resolve`, which is a parameter.
- `NodeFs` — the outcome of reading a file: `Ok(bytes)`, `NotFound` or
  `Other(message)`. This tagged value replaces the source's test of the error
  code against `"ENOENT"`.
- `NodeHttp` — the response record, and a `ServerResponse` class that records
  the `writeHead` and `end` calls made on it.
- `Mime` — the default table and content-type inference, as functions with lemmas.
- `RequestHandling` — URL massaging and response selection, as functions with lemmas.
- `Server` — the `StaticServer` class. Its `root` is a `const` assigned only by
  the constructor. Its `mimeTypes` map is updated in place by `SetMimeType`.
  `HandleRequest` changes only the response object it is given.

Behaviours of the code worth noting:

- An empty URL becomes `"."`, the root directory itself. It does not become
  `index.html`. Only a missing URL or exactly `"/"` gives `./index.html`.
- The 404 body names the massaged `./…` path, e.g. `NOT FOUND: ./missing.txt`.
- The query string and percent-encoding are not handled. `"/?a=1"` is served
  as the path `./?a=1`, not as the index page.
- A request for `/index.html` is served from the same path as `/`; see
  `RequestHandling.MassageUrlIsIndexExactly`.

## Model

| member | source | states |
|---|---|---|
| `NodePath.Extname` | lib/StaticServer.ts:94 | the extension is `""` or one `.` followed by no further `.` or separator, and it ends the file name (trailing separators aside) |
| `NodePath.ExtnameOfStemAndExtension` | lib/StaticServer.ts:94 | a non-empty stem followed by a well-formed extension has exactly that extension |
| `Mime.ContentTypeFor` | lib/StaticServer.ts:93-101 | the table's entry for the file's extension when there is one, `application/octet-stream` otherwise; never absent |
| `Mime.DefaultsAreTheEight` | lib/StaticServer.ts:16-25 | the default table has exactly the eight keys `.html .js .css .json .png .jpg .wav .mp3` |
| `Mime.DefaultKeysAreExtensions` | lib/StaticServer.ts:16-25 | every default key is a well-formed extension |
| `Mime.DefaultContentType` | lib/StaticServer.ts:16-25 | any file named with a default extension gets that extension's default type |
| `Mime.FallbackExactlyWhenUnmapped` | lib/StaticServer.ts:95-100 | the fallback is returned if and only if the extension has no entry or its entry is the fallback itself |
| `Mime.ContentTypeOfNamedFile` | lib/StaticServer.ts:93-101 | a file `stem + ext` gets the entry for `ext` when there is one, and `application/octet-stream` otherwise |
| `Mime.ContentTypeAfterRegistering` | lib/StaticServer.ts:40-42 | after registering `(e, t)`, files of extension `e` get `t` and every other file keeps its content type |
| `Mime.RegisteredExtensionIsServed` | lib/StaticServer.ts:40-42 | after registering `(e, t)`, any file `stem + e` is served as `t`, overwriting a default or earlier entry |
| `Mime.UpperCaseExtensionFallsBack` | lib/StaticServer.ts:95 | lookups are case-sensitive: a `.HTML` file gets the fallback |
| `Mime.LastExtensionDecides` | lib/StaticServer.ts:94 | only the last extension counts: `page.html.gz` gets the fallback |
| `Mime.DotFileHasNoExtension` | lib/StaticServer.ts:94 | a file named only `.html` has no extension and gets the fallback |
| `RequestHandling.MassageUrl` | lib/StaticServer.ts:58-61 | the served path always starts with `.` |
| `RequestHandling.MassageUrlKeepsUrl` | lib/StaticServer.ts:59-60 | a URL `u` other than `"/"` is served from `"." + u`, with `u` kept intact after the dot |
| `RequestHandling.MassageUrlInjective` | lib/StaticServer.ts:59-60 | distinct URLs other than `"/"` are served from distinct paths |
| `RequestHandling.MassageUrlIsIndexExactly` | lib/StaticServer.ts:58-61 | `./index.html` is served exactly for a missing URL, `"/"` and `"/index.html"` |
| `RequestHandling.EmptyUrlIsRoot` | lib/StaticServer.ts:59-60 | the empty URL becomes `"."`, not the index page |
| `RequestHandling.Respond` | lib/StaticServer.ts:69-89 | every response has status 200, 404 or 500 |
| `RequestHandling.OutcomeDeterminesStatus` | lib/StaticServer.ts:69-89 | 200, 404 and 500 correspond one-to-one to success, not-found and other failure, and only success sets a header |
| `RequestHandling.SuccessResponse` | lib/StaticServer.ts:70-74 | success gives 200, one `Content-Type` header from the resolved file name, and the file's bytes unchanged as body |
| `RequestHandling.ContentTypeIgnoresUrl` | lib/StaticServer.ts:72 | the 200 response depends on the resolved file name, not on the URL |
| `RequestHandling.NotFoundResponse` | lib/StaticServer.ts:76-81 | not-found gives 404, no headers, and body `"NOT FOUND: " + url`, from which the url can be read back |
| `RequestHandling.ErrorResponse` | lib/StaticServer.ts:82-88 | any other failure gives 500, no headers, and body `"ERROR: " + message`, from which the message can be read back |
| `RequestHandling.ResponseDeterminesOutcome` | lib/StaticServer.ts:69-89 | two outcomes answered with the same response are the same outcome |
| `RequestHandling.MissingFileScenario` | lib/StaticServer.ts:78 | `/missing.txt` not found gives body `NOT FOUND: ./missing.txt` |
| `RequestHandling.FixtureScenario` | tests/index-test.js:12-15 | `/test.txt` read as `foobarbaz\n` gives 200, those exact bytes, and the generic type since `.txt` has no default entry |
| `NodeHttp.ServerResponse.WriteHead` | lib/StaticServer.ts:71-73 | records the status and headers; allowed only once and before `end` |
| `NodeHttp.ServerResponse.End` | lib/StaticServer.ts:74 | records the body; allowed only once |
| `Server.StaticServer.constructor` | lib/StaticServer.ts:34-35 | the root is the resolved root argument, the same resolver is kept for file names, and the table is exactly the defaults |
| `Server.StaticServer.SetMimeType` | lib/StaticServer.ts:40-42 | inserts or overwrites one entry, leaves all other entries, and keeps every default key |
| `Server.StaticServer.GetContentType` | lib/StaticServer.ts:93-101 | the table's entry for the file's extension, or `application/octet-stream` when it has none |
| `Server.StaticServer.HandleRequest` | lib/StaticServer.ts:56-90 | exactly one `writeHead` then one `end`, carrying the response selected for the massaged URL, the file resolved under the root, and the read's outcome; the table is unchanged |
| `Server.BasicTest` | tests/index-test.js:6-20 | a server rooted at the fixtures answers `/test.txt` with the fixture's bytes |

## Left out

- `listen`, `stop` and the `http.createServer` listener set up in the constructor (lib/StaticServer.ts:36, 45-53): network I/O and its lifecycle.
- `fs.readFile` and its Promise wrapper `read` (lib/StaticServer.ts:5-10): replaced by a `FileReader` parameter that returns the tagged outcome.
- `path.resolve` (lib/StaticServer.ts:35, 65): a `Resolver` parameter about which nothing is claimed. So nothing is claimed about `..` segments escaping the root, which the code does not guard against.
- `path.extname` on Windows (drive letters, `\` separators): only Node's POSIX rule is modelled.
- The `console.*` logging (lib/StaticServer.ts:47, 62, 66, 79, 85): side effects only.
- The `"utf-8"` argument to `response.end` (lib/StaticServer.ts:74): an encoding hint with no effect on a byte body. String bodies are kept as strings, and their encoding to bytes is not modelled.
- Server.StaticServer.HandleRequest: handles a request atomically. In the source, the `await` on the read lets a `setMIMEType` run between the start of handling and the `getContentType` call; the model reads the table once, when the content type is computed.
- Server.StaticServer.HandleRequest: only the file read can fail. In the source, `getContentType`, `writeHead(200, …)` and `end(data, "utf-8")` are inside the same `try` (lib/StaticServer.ts:69-75), so anything they throw (such as Node rejecting a registered content type that holds a newline) is answered 500 with `ERROR: ` and the message. The model does not capture such exceptions and answers 200.
- NodeHttp.ServerResponse: only the discipline the handler relies on is modelled (one `writeHead` before one `end`). Node's own behaviours are not modelled: implicit headers, case-insensitive header names, and errors when `writeHead` comes too late.
