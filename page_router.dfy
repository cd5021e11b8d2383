/**
 * The request router of the display server (display_rotation/config/
 * router.php): it cleans the request path, picks the config or the pages
 * directory, and then executes a PHP file, serves a static file with its
 * MIME type, or answers 404. The file system is a predicate on paths; the
 * parsing of the request URI into its path is left to the caller.
 */
module PageRouter {
  import opened Wrappers
  import opened Text

  /** The one file served from the config directory. */
  const ListPages := "list-pages.php"

  /** `get_mime_type`'s table, keyed by lower-case extension. */
  const MimeTypes: map<string, string> := map[
    "html" := "text/html",
    "htm" := "text/html",
    "php" := "text/html",
    "css" := "text/css",
    "js" := "application/javascript",
    "json" := "application/json",
    "png" := "image/png",
    "jpg" := "image/jpeg",
    "jpeg" := "image/jpeg",
    "gif" := "image/gif",
    "svg" := "image/svg+xml"
  ]

  /** The index of the last `c` in `s`. */
  function LastIndex(s: string, c: char): (r: Option<nat>)
    ensures r.Some? ==> r.value < |s| && s[r.value] == c && forall k :: r.value < k < |s| ==> s[k] != c
    ensures r.None? ==> c !in s
    decreases |s|
  {
    if s == [] then None
    else if s[|s| - 1] == c then Some(|s| - 1)
    else
      var r := LastIndex(s[..|s| - 1], c);
      assert s == s[..|s| - 1] + [s[|s| - 1]];
      r
  }

  /** PHP's `basename`: trailing slashes dropped, then the part after the last '/'. */
  function Basename(path: string): (r: string)
    ensures '/' !in r
  {
    var trimmed := TrimEnd(path, MemberOf({'/'}));
    match LastIndex(trimmed, '/')
    case None => trimmed
    case Some(i) => trimmed[i + 1..]
  }

  /** `pathinfo($path, PATHINFO_EXTENSION)`: what follows the basename's last '.', or "" without one. */
  function Extension(path: string): (r: string)
    ensures '.' !in r && '/' !in r
  {
    var base := Basename(path);
    match LastIndex(base, '.')
    case None => ""
    case Some(i) =>
      var tail := base[i + 1..];
      assert forall k :: 0 <= k < |tail| ==> tail[k] == base[i + 1 + k];
      tail
  }

  /** `get_mime_type`: the table's entry for the lower-cased extension, or "text/plain". */
  function MimeType(path: string): (r: string)
    ensures Lower(Extension(path)) in MimeTypes ==> r == MimeTypes[Lower(Extension(path))]
    ensures Lower(Extension(path)) !in MimeTypes ==> r == "text/plain"
  {
    var ext := Lower(Extension(path));
    if ext in MimeTypes then MimeTypes[ext] else "text/plain"
  }

  /** The characters `FILTER_SANITIZE_URL` keeps: ASCII letters and digits and the URL punctuation. */
  predicate UrlChar(c: char) {
    || 'a' <= c <= 'z' || 'A' <= c <= 'Z' || '0' <= c <= '9'
    || c in "$-_.+!*'(),{}|\\^~[]`<>#%\";/?:@&="
  }

  /** `filter_var($s, FILTER_SANITIZE_URL)`: every other character removed. */
  function SanitizeUrl(s: string): (r: string)
    ensures forall k :: 0 <= k < |r| ==> UrlChar(r[k])
    ensures |r| <= |s|
    ensures (forall k :: 0 <= k < |s| ==> UrlChar(s[k])) ==> r == s
    decreases |s|
  {
    if s == [] then []
    else (if UrlChar(s[0]) then [s[0]] else []) + SanitizeUrl(s[1..])
  }

  /** The cleaned path: leading slashes trimmed, then sanitised. */
  function CleanPath(parsedPath: string): string {
    SanitizeUrl(TrimStart(parsedPath, MemberOf({'/'})))
  }

  /** The file a cleaned path names: the list script in the config directory, anything else in the pages directory. */
  function FilePath(baseDir: string, clean: string): string {
    if clean == ListPages then ConfigDir(baseDir) + "/" + clean else PagesDir(baseDir) + "/" + clean
  }

  function PagesDir(baseDir: string): string {
    baseDir + "/pages"
  }

  function ConfigDir(baseDir: string): string {
    baseDir + "/config"
  }

  /** `htmlspecialchars` with its defaults since PHP 8.1: the five markup characters become entities. */
  function Escape(c: char): string {
    match c
    case '&' => "&amp;"
    case '"' => "&quot;"
    case '\'' => "&#039;"
    case '<' => "&lt;"
    case '>' => "&gt;"
    case _ => [c]
  }

  function HtmlEscape(s: string): (r: string)
    ensures forall k :: 0 <= k < |r| ==> r[k] !in "<>\"'"
    decreases |s|
  {
    if s == [] then [] else Escape(s[0]) + HtmlEscape(s[1..])
  }

  /** Reading the entities back, the reference the escaping is checked against. */
  function HtmlUnescape(s: string): string
    decreases |s|
  {
    if s == [] then []
    else if StartsWith(s, "&amp;") then "&" + HtmlUnescape(s[5..])
    else if StartsWith(s, "&quot;") then "\"" + HtmlUnescape(s[6..])
    else if StartsWith(s, "&#039;") then "'" + HtmlUnescape(s[6..])
    else if StartsWith(s, "&lt;") then "<" + HtmlUnescape(s[4..])
    else if StartsWith(s, "&gt;") then ">" + HtmlUnescape(s[4..])
    else [s[0]] + HtmlUnescape(s[1..])
  }

  lemma UnescapeOne(c: char, rest: string)
    ensures HtmlUnescape(Escape(c) + rest) == [c] + HtmlUnescape(rest)
  {
    match c
    case '&' => UnescapeAmp(rest);
    case '"' => UnescapeQuot(rest);
    case '\'' => UnescapeApos(rest);
    case '<' => UnescapeLt(rest);
    case '>' => UnescapeGt(rest);
    case _ => UnescapePlain(c, rest);
  }

  lemma UnescapeAmp(rest: string)
    ensures HtmlUnescape("&amp;" + rest) == "&" + HtmlUnescape(rest)
  {
    var e := "&amp;" + rest;
    assert e[..5] == "&amp;" && e[5..] == rest;
  }

  lemma UnescapeQuot(rest: string)
    ensures HtmlUnescape("&quot;" + rest) == "\"" + HtmlUnescape(rest)
  {
    var e := "&quot;" + rest;
    assert e[1] == 'q';
    DiffersAt(e, "&amp;", 1);
    assert e[..6] == "&quot;" && e[6..] == rest;
  }

  lemma UnescapeApos(rest: string)
    ensures HtmlUnescape("&#039;" + rest) == "'" + HtmlUnescape(rest)
  {
    var e := "&#039;" + rest;
    assert e[1] == '#';
    DiffersAt(e, "&amp;", 1);
    DiffersAt(e, "&quot;", 1);
    assert e[..6] == "&#039;" && e[6..] == rest;
  }

  lemma UnescapeLt(rest: string)
    ensures HtmlUnescape("&lt;" + rest) == "<" + HtmlUnescape(rest)
  {
    var e := "&lt;" + rest;
    assert e[1] == 'l';
    DiffersAt(e, "&amp;", 1);
    DiffersAt(e, "&quot;", 1);
    DiffersAt(e, "&#039;", 1);
    assert e[..4] == "&lt;" && e[4..] == rest;
  }

  lemma UnescapeGt(rest: string)
    ensures HtmlUnescape("&gt;" + rest) == ">" + HtmlUnescape(rest)
  {
    var e := "&gt;" + rest;
    assert e[1] == 'g';
    DiffersAt(e, "&amp;", 1);
    DiffersAt(e, "&quot;", 1);
    DiffersAt(e, "&#039;", 1);
    DiffersAt(e, "&lt;", 1);
    assert e[..4] == "&gt;" && e[4..] == rest;
  }

  /** Any other character reads back as itself. */
  lemma UnescapePlain(c: char, rest: string)
    requires c != '&'
    ensures HtmlUnescape([c] + rest) == [c] + HtmlUnescape(rest)
  {
    var e := [c] + rest;
    assert e[0] == c && e[1..] == rest;
    DiffersAt(e, "&amp;", 0);
    DiffersAt(e, "&quot;", 0);
    DiffersAt(e, "&#039;", 0);
    DiffersAt(e, "&lt;", 0);
    DiffersAt(e, "&gt;", 0);
  }

  /** A text that differs from a prefix at some position does not start with it. */
  lemma DiffersAt(s: string, prefix: string, i: nat)
    requires i < |prefix| && i < |s| && s[i] != prefix[i]
    ensures !StartsWith(s, prefix)
  {
    if |prefix| <= |s| {
      assert s[..|prefix|][i] != prefix[i];
    }
  }

  /** Escaping loses nothing: the entities read back to the text. */
  lemma {:induction false} EscapeRoundTrip(s: string)
    ensures HtmlUnescape(HtmlEscape(s)) == s
    decreases |s|
  {
    if s != [] {
      UnescapeOne(s[0], HtmlEscape(s[1..]));
      EscapeRoundTrip(s[1..]);
      assert s == [s[0]] + s[1..];
    }
  }

  datatype Response =
    | Execute(file: string)
    | Static(file: string, contentType: string)
    | NotFound(body: string)

  /**
   * The router's answer: an existing file with extension exactly "php" is
   * executed, any other existing file is served with its MIME type, and a
   * missing one gets a 404 naming the escaped cleaned path. `fileExists` is
   * PHP's `file_exists`, which also holds for a directory: a path naming
   * the pages directory itself is answered as a static file of type
   * text/plain.
   */
  function Route(baseDir: string, parsedPath: string, fileExists: string -> bool): (r: Response)
    ensures var file := FilePath(baseDir, CleanPath(parsedPath));
      (r.Execute? <==> fileExists(file) && Extension(file) == "php") &&
      (r.Static? <==> fileExists(file) && Extension(file) != "php") &&
      (r.Static? ==> r.contentType == MimeType(file)) &&
      (!r.NotFound? ==> r.file == file) &&
      (r.NotFound? ==> r.body == "404 - File not found: " + HtmlEscape(CleanPath(parsedPath)))
  {
    var clean := CleanPath(parsedPath);
    var file := FilePath(baseDir, clean);
    if fileExists(file) then
      if Extension(file) == "php" then Execute(file) else Static(file, MimeType(file))
    else NotFound("404 - File not found: " + HtmlEscape(clean))
  }

  /** The config directory serves the list script and nothing else. */
  lemma ConfigOnlyForListPages(baseDir: string, clean: string)
    ensures StartsWith(FilePath(baseDir, clean), ConfigDir(baseDir) + "/") <==> clean == ListPages
  {
    var p := FilePath(baseDir, clean);
    if clean != ListPages {
      assert p[|baseDir| + 1] == 'p';
      assert (ConfigDir(baseDir) + "/")[|baseDir| + 1] == 'c';
    }
  }

  /** The basename of `dir/name` is `name`. */
  lemma BasenameOfName(dir: string, name: string)
    requires name != [] && '/' !in name
    ensures Basename(dir + "/" + name) == name
  {
    var path := dir + "/" + name;
    assert path[|path| - 1] == name[|name| - 1] && name[|name| - 1] in name;
    assert TrimEnd(path, MemberOf({'/'})) == path;
    assert path[|dir|] == '/';
    forall k | |dir| < k < |path| ensures path[k] != '/' {
      assert path[k] == name[k - |dir| - 1];
      assert name[k - |dir| - 1] in name;
    }
    var slash := LastIndex(path, '/');
    assert slash.Some? && slash.value == |dir|;
    assert path[|dir| + 1..] == name;
  }

  /** The text after the last '.' of `stem.ext` is `ext`. */
  lemma AfterLastDot(stem: string, ext: string)
    requires '.' !in ext
    ensures var name := stem + "." + ext;
      LastIndex(name, '.') == Some(|stem|) && name[|stem| + 1..] == ext
  {
    var name := stem + "." + ext;
    assert name[|stem|] == '.';
    forall k | |stem| < k < |name| ensures name[k] != '.' {
      assert name[k] == ext[k - |stem| - 1];
      assert ext[k - |stem| - 1] in ext;
    }
    assert name[|stem| + 1..] == ext;
  }

  /** The extension of a file named `stem.ext` in any directory is `ext`. */
  lemma ExtensionOfName(dir: string, stem: string, ext: string)
    requires ext != [] && '.' !in ext && '/' !in ext && '/' !in stem
    ensures Extension(dir + "/" + (stem + "." + ext)) == ext
  {
    var name := stem + "." + ext;
    assert '/' !in name by {
      forall k | 0 <= k < |name| ensures name[k] != '/' {
        if k < |stem| { assert name[k] == stem[k] && stem[k] in stem; }
        else if k > |stem| { assert name[k] == ext[k - |stem| - 1] && ext[k - |stem| - 1] in ext; }
      }
    }
    BasenameOfName(dir, name);
    AfterLastDot(stem, ext);
  }

  /** A page named with an upper-case ".PHP" is not executed but served as HTML, since the lookup lower-cases. */
  lemma UpperCasePhpServedAsHtml(baseDir: string, stem: string, fileExists: string -> bool)
    requires '/' !in stem && (stem == [] || stem[0] != '/')
    requires forall k :: 0 <= k < |stem| ==> UrlChar(stem[k])
    requires fileExists(PagesDir(baseDir) + "/" + (stem + ".PHP"))
    ensures Route(baseDir, "/" + (stem + ".PHP"), fileExists) == Static(PagesDir(baseDir) + "/" + (stem + ".PHP"), "text/html")
  {
    var clean := stem + ".PHP";
    var file := PagesDir(baseDir) + "/" + clean;
    PhpNameCleans(stem);
    assert FilePath(baseDir, CleanPath("/" + clean)) == file;
    UpperPhpExtension(PagesDir(baseDir), stem);
    RouteStatic(baseDir, "/" + clean, fileExists);
  }

  /** A name `stem.PHP` of URL characters survives cleaning and is not the list script. */
  lemma PhpNameCleans(stem: string)
    requires '/' !in stem && (stem == [] || stem[0] != '/')
    requires forall k :: 0 <= k < |stem| ==> UrlChar(stem[k])
    ensures CleanPath("/" + (stem + ".PHP")) == stem + ".PHP"
    ensures stem + ".PHP" != ListPages
  {
    var clean := stem + ".PHP";
    forall k | 0 <= k < |clean| ensures UrlChar(clean[k]) {
      if k < |stem| { assert clean[k] == stem[k]; }
    }
    CleanSlashPrefixed(clean);
    assert clean[|clean| - 1] == 'P';
  }

  /** An existing file whose extension is not "php" is served with its MIME type. */
  lemma RouteStatic(baseDir: string, parsedPath: string, fileExists: string -> bool)
    requires var file := FilePath(baseDir, CleanPath(parsedPath));
      fileExists(file) && Extension(file) != "php"
    ensures var file := FilePath(baseDir, CleanPath(parsedPath));
      Route(baseDir, parsedPath, fileExists) == Static(file, MimeType(file))
  {
  }

  lemma UpperPhpExtension(dir: string, stem: string)
    requires '/' !in stem
    ensures Extension(dir + "/" + (stem + ".PHP")) == "PHP"
    ensures MimeType(dir + "/" + (stem + ".PHP")) == "text/html"
  {
    assert stem + ".PHP" == stem + "." + "PHP";
    ExtensionOfName(dir, stem, "PHP");
    LowerPhp();
  }

  lemma LowerPhp()
    ensures Lower("PHP") == "php" && MimeTypes["php"] == "text/html"
  {
    assert Lower("PHP") == [LowerChar('P')] + Lower("HP");
    assert Lower("HP") == [LowerChar('H')] + Lower("P");
  }

  /** A path of URL characters that does not start with '/' comes back from one leading slash unchanged. */
  lemma CleanSlashPrefixed(clean: string)
    requires clean == [] || clean[0] != '/'
    requires forall k :: 0 <= k < |clean| ==> UrlChar(clean[k])
    ensures CleanPath("/" + clean) == clean
  {
    var p := "/" + clean;
    assert p[1..] == clean;
    assert TrimStart(p, MemberOf({'/'})) == clean;
  }

  /** Any number of leading slashes, before any path, leave the cleaned path unchanged. */
  lemma {:induction false} CleanIgnoresLeadingSlashes(n: nat, path: string)
    ensures CleanPath(Repeat('/', n) + path) == CleanPath(path)
    decreases n
  {
    var p := Repeat('/', n) + path;
    if n == 0 {
      assert p == path;
    } else {
      assert p[0] == '/' && p[1..] == Repeat('/', n - 1) + path;
      assert MemberOf({'/'})(p[0]);
      assert TrimStart(p, MemberOf({'/'})) == TrimStart(p[1..], MemberOf({'/'}));
      CleanIgnoresLeadingSlashes(n - 1, path);
    }
  }

  /**
   * Sanitising runs after trimming, so a removed character can leave a
   * leading slash in place: "/ /x" cleans to "/x".
   */
  lemma SlashSurvivesSanitising()
    ensures CleanPath("/ /x") == "/x"
  {
    TrimOneSlash();
    SanitizeSpaceSlashX();
  }

  lemma TrimOneSlash()
    ensures TrimStart("/ /x", MemberOf({'/'})) == " /x"
  {
    assert "/ /x"[1..] == " /x";
  }

  lemma SanitizeSpaceSlashX()
    ensures SanitizeUrl(" /x") == "/x"
  {
    assert !UrlChar(' ') && UrlChar('/') && UrlChar('x');
    assert " /x"[1..] == "/x" && "/x"[1..] == "x" && "x"[1..] == [];
    assert SanitizeUrl("x") == "x";
    assert SanitizeUrl("/x") == "/" + SanitizeUrl("x");
  }

  /** Parent-directory steps pass both the trimming and the sanitising, so a request can name a file above the pages directory. */
  lemma ParentStepsKept(baseDir: string)
    ensures FilePath(baseDir, CleanPath("/../config/x")) == PagesDir(baseDir) + "/" + "../config/x"
  {
    var clean := "../config/x";
    assert forall k :: 0 <= k < |clean| ==> UrlChar(clean[k]);
    CleanSlashPrefixed(clean);
  }
}
