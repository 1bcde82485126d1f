/** The extension-to-MIME-type table and content-type inference. */
module Mime {
  import opened NodePath

  /** Extensions, with their leading `.`, mapped to MIME types; keys match exactly. */
  type MimeTable = map<string, string>

  const OctetStream := "application/octet-stream"

  /** The eight entries every server starts with. */
  const Defaults: MimeTable := map[
    ".html" := "text/html",
    ".js" := "text/javascript",
    ".css" := "text/css",
    ".json" := "application/json",
    ".png" := "image/png",
    ".jpg" := "image/jpg",
    ".wav" := "audio/wav",
    ".mp3" := "audio/mp3"
  ]

  /** The content type for a file: the entry for its extension, or the generic fallback. */
  function ContentTypeFor(table: MimeTable, filename: string): (t: string)
    ensures t in table.Values || t == OctetStream
    ensures Extname(filename) in table ==> t == table[Extname(filename)]
    ensures Extname(filename) !in table ==> t == OctetStream
  {
    var ext := Extname(filename);
    if ext in table then table[ext] else OctetStream
  }

  /** Exactly the eight defaults, and no other key. */
  lemma DefaultsAreTheEight()
    ensures Defaults.Keys == {".html", ".js", ".css", ".json", ".png", ".jpg", ".wav", ".mp3"}
  {
  }

  /** The fallback is produced exactly when nothing registered says otherwise. */
  lemma FallbackExactlyWhenUnmapped(table: MimeTable, filename: string)
    ensures ContentTypeFor(table, filename) == OctetStream
        <==> Extname(filename) !in table || table[Extname(filename)] == OctetStream
  {
  }

  /** A file named stem + ext gets the entry registered for ext, or the fallback. */
  lemma {:induction false} ContentTypeOfNamedFile(table: MimeTable, stem: string, ext: string)
    requires IsExtension(ext)
    requires stem != [] && stem[|stem| - 1] != Separator
    ensures ext in table ==> ContentTypeFor(table, stem + ext) == table[ext]
    ensures ext !in table ==> ContentTypeFor(table, stem + ext) == OctetStream
  {
    ExtnameOfStemAndExtension(stem, ext);
  }

  /**
   * Registering (ext, t) makes every file of extension ext get t, whatever was
   * there before, and leaves every other file's content type as it was.
   */
  lemma ContentTypeAfterRegistering(table: MimeTable, ext: string, t: string, filename: string)
    ensures Extname(filename) == ext ==> ContentTypeFor(table[ext := t], filename) == t
    ensures Extname(filename) != ext ==> ContentTypeFor(table[ext := t], filename) == ContentTypeFor(table, filename)
  {
  }

  /**
   * After registering any type t for a well-formed extension ext, every file
   * named stem + ext is served as t, whatever the table held for ext before.
   */
  lemma {:induction false} RegisteredExtensionIsServed(table: MimeTable, stem: string, ext: string, t: string)
    requires IsExtension(ext)
    requires stem != [] && stem[|stem| - 1] != Separator
    ensures ContentTypeFor(table[ext := t], stem + ext) == t
  {
    ExtnameOfStemAndExtension(stem, ext);
  }

  /** Every default key is a well-formed extension. */
  lemma DefaultKeysAreExtensions()
    ensures forall ext :: ext in Defaults ==> IsExtension(ext)
  {
    assert IsExtension(".html") && IsExtension(".js") && IsExtension(".css") && IsExtension(".json");
    assert IsExtension(".png") && IsExtension(".jpg") && IsExtension(".wav") && IsExtension(".mp3");
  }

  /** Any file named with one of the default extensions gets that extension's default type. */
  lemma {:induction false} DefaultContentType(stem: string, ext: string)
    requires ext in Defaults
    requires stem != [] && stem[|stem| - 1] != Separator
    ensures ContentTypeFor(Defaults, stem + ext) == Defaults[ext]
  {
    DefaultKeysAreExtensions();
    ContentTypeOfNamedFile(Defaults, stem, ext);
  }

  /** Lookups are case-sensitive: an upper-case `.HTML` is not an HTML file. */
  lemma {:induction false} UpperCaseExtensionFallsBack(stem: string)
    requires stem != [] && stem[|stem| - 1] != Separator
    ensures ContentTypeFor(Defaults, stem + ".HTML") == OctetStream
  {
    assert IsExtension(".HTML");
    assert ".HTML" !in Defaults;
    ContentTypeOfNamedFile(Defaults, stem, ".HTML");
  }

  /** Only the last extension counts: `page.html.gz` is not an HTML file. */
  lemma {:induction false} LastExtensionDecides(stem: string)
    requires stem != [] && stem[|stem| - 1] != Separator
    ensures ContentTypeFor(Defaults, stem + ".html.gz") == OctetStream
  {
    assert IsExtension(".gz");
    assert ".gz" !in Defaults;
    assert stem + ".html.gz" == (stem + ".html") + ".gz";
    ContentTypeOfNamedFile(Defaults, stem + ".html", ".gz");
  }

  /** A file named only `.html` is a hidden file without extension, so it is not served as HTML. */
  lemma {:induction false} DotFileHasNoExtension(dir: string)
    ensures Extname(dir + "/.html") == ""
    ensures ContentTypeFor(Defaults, dir + "/.html") == OctetStream
  {
    var p := dir + "/.html";
    assert p[|p| - 1] == 'l';
    assert TrimTrailingSeparators(p) == p;
    LastIndexOfIs(p, Separator, |dir|);
    assert p[|dir| + 1..] == ".html";
    LastIndexOfIs(".html", '.', 0);
  }
}
