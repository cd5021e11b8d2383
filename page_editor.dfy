/**
 * The display-page editor server (display_rotation/editor/main.go): a
 * directory of HTML pages, a rubbish directory deleted pages are moved to,
 * and the rotation config file that lists pages with their status.
 * Requests arrive as already-decoded values; the outcome of each file
 * system call the handlers make is a parameter.
 */
module PageEditor {
  import opened Wrappers
  import opened Text
  import opened Ordering

  const StatusOK := 200
  const StatusBadRequest := 400
  const StatusForbidden := 403
  const StatusMethodNotAllowed := 405
  const StatusInternalServerError := 500

  /** The page that runs the rotation; the editor neither lists nor overwrites it. */
  const Rotator := "rotator.html"

  datatype PageStatus = PageStatus(active: bool, order: int)

  /** A config's page map; `None` is Go's nil map (`"pages": null` or no such field). */
  type PageMap = Option<map<string, PageStatus>>

  /**
   * The config file on disk. `Malformed` is text that is not JSON, which
   * `json.Unmarshal` rejects before decoding anything. `Mistyped` is JSON
   * with a value of the wrong type: Go decodes what it can, leaves the bad
   * field at its zero value and still reports an error; `pages` is what it
   * decoded.
   */
  datatype ConfigFile = Absent | ReadError | Malformed | Mistyped(pages: PageMap) | Stored(pages: PageMap)

  /** What `loadConfig` returns: the config's pages and whether it reported an error. */
  datatype LoadedConfig = LoadedConfig(pages: PageMap, failed: bool)

  /**
   * `loadConfig`: a missing file is an empty config without error; a
   * decoded config with nil pages gets an empty map; a read error returns
   * the zero config (nil pages) with the error; text that is not JSON
   * returns an empty map with the error; mistyped JSON returns the part
   * that decoded, with the error.
   */
  function LoadConfig(file: ConfigFile): (r: LoadedConfig)
    ensures file == Absent ==> r == LoadedConfig(Some(map[]), false)
    ensures r.failed <==> file == ReadError || file == Malformed || file.Mistyped?
    ensures r.pages.None? <==> file == ReadError
    ensures file == Malformed ==> r.pages == Some(map[])
    ensures (file.Stored? || file.Mistyped?) && file.pages.Some? ==> r.pages == file.pages
    ensures (file.Stored? || file.Mistyped?) && file.pages.None? ==> r.pages == Some(map[])
  {
    match file
    case Absent => LoadedConfig(Some(map[]), false)
    case ReadError => LoadedConfig(None, true)
    case Malformed => LoadedConfig(Some(map[]), true)
    case Mistyped(pages) => LoadedConfig(Some(pages.GetOr(map[])), true)
    case Stored(pages) => LoadedConfig(Some(pages.GetOr(map[])), false)
  }

  /** `handleSave`'s filename rule: ends in ".html" and holds no '/'. */
  predicate ValidFilename(name: string) {
    EndsWith(name, ".html") && '/' !in name
  }

  /** The names `handleFiles` lists from the glob's matches, in the glob's order. */
  function PageList(globbed: seq<string>): (r: seq<string>)
    ensures forall x :: x in r <==> x in globbed && x != Rotator
    ensures |r| <= |globbed|
    decreases |globbed|
  {
    if globbed == [] then []
    else
      var front := PageList(globbed[..|globbed| - 1]);
      var last := globbed[|globbed| - 1];
      assert forall x :: x in globbed <==> x in globbed[..|globbed| - 1] || x == last by {
        assert globbed == globbed[..|globbed| - 1] + [last];
      }
      if last != Rotator then front + [last] else front
  }

  /** Dropping names keeps a strictly sorted list strictly sorted. */
  lemma {:induction false} PageListSorted(globbed: seq<string>)
    requires StrictlySorted(globbed)
    ensures StrictlySorted(PageList(globbed))
    decreases |globbed|
  {
    if globbed != [] {
      var front := globbed[..|globbed| - 1];
      var last := globbed[|globbed| - 1];
      PageListSorted(front);
      var r := PageList(front);
      forall k | 0 <= k < |r| ensures Below(r[k], last) {
        assert r[k] in front;
        var j :| 0 <= j < |front| && front[j] == r[k];
        assert globbed[j] == r[k];
      }
    }
  }

  /** `filepath.Glob` of `*.html` in the pages directory: the names ending in ".html", sorted. */
  function HtmlFiles(pages: map<string, string>): (r: seq<string>)
    ensures StrictlySorted(r)
    ensures forall x :: x in r <==> x in pages && EndsWith(x, ".html")
  {
    SortedSeq(set name | name in pages && EndsWith(name, ".html"))
  }

  /** A response whose body is a JSON array; `None` is Go's nil slice, which encodes as `null`. */
  type JsonList = Option<seq<string>>

  class EditorServer {
    /** The pages directory: file name to content. */
    var pages: map<string, string>
    /** The rubbish directory: file name to content. */
    var rubbish: map<string, string>
    var config: ConfigFile

    /** The server over the directories and config file as it finds them; the rubbish directory keeps what earlier runs moved there. */
    constructor (pages: map<string, string>, rubbish: map<string, string>, config: ConfigFile)
      ensures this.pages == pages && this.rubbish == rubbish && this.config == config
    {
      this.pages := pages;
      this.rubbish := rubbish;
      this.config := config;
    }

    /** `handleConfig`: the page map, or 500 when loading reports an error. */
    method HandleConfig(httpMethod: string) returns (status: int, body: PageMap)
      ensures httpMethod != "GET" ==> status == StatusMethodNotAllowed && body.None?
      ensures httpMethod == "GET" ==>
        var loaded := LoadConfig(config);
        (loaded.failed ==> status == StatusInternalServerError && body.None?) &&
        (!loaded.failed ==> status == StatusOK && body == loaded.pages && body.Some?)
    {
      if httpMethod != "GET" {
        return StatusMethodNotAllowed, None;
      }
      var loaded := LoadConfig(config);
      if loaded.failed {
        return StatusInternalServerError, None;
      }
      return StatusOK, loaded.pages;
    }

    /** `handleToggleStatus`: saves the submitted config as it is; the request's filename is not used. */
    method HandleToggleStatus(httpMethod: string, request: Option<(string, PageMap)>, writeOk: bool) returns (status: int)
      modifies this
      ensures pages == old(pages) && rubbish == old(rubbish)
      ensures httpMethod != "POST" ==> status == StatusMethodNotAllowed && config == old(config)
      ensures httpMethod == "POST" && request.None? ==> status == StatusBadRequest && config == old(config)
      ensures httpMethod == "POST" && request.Some? && !writeOk ==> status == StatusInternalServerError && config == old(config)
      ensures httpMethod == "POST" && request.Some? && writeOk ==> status == StatusOK && config == Stored(request.value.1)
    {
      if httpMethod != "POST" {
        return StatusMethodNotAllowed;
      }
      if request.None? {
        return StatusBadRequest;
      }
      if !writeOk {
        return StatusInternalServerError;
      }
      config := Stored(request.value.1);
      return StatusOK;
    }

    /** `handleFiles`: the HTML pages in glob order, without the rotator page. */
    method HandleFiles(httpMethod: string) returns (status: int, body: JsonList)
      ensures httpMethod != "GET" ==> status == StatusMethodNotAllowed && body.None?
      ensures httpMethod == "GET" ==>
        status == StatusOK && body == (if PageList(HtmlFiles(pages)) == [] then None else Some(PageList(HtmlFiles(pages))))
    {
      if httpMethod != "GET" {
        return StatusMethodNotAllowed, None;
      }
      var files := HtmlFiles(pages);
      var filtered: JsonList := None;
      var i := 0;
      while i < |files|
        invariant 0 <= i <= |files|
        invariant filtered == if PageList(files[..i]) == [] then None else Some(PageList(files[..i]))
      {
        assert files[..i + 1][..i] == files[..i];
        if files[i] != Rotator {
          filtered := Some(filtered.GetOr([]) + [files[i]]);
        }
        i := i + 1;
      }
      assert files[..|files|] == files;
      return StatusOK, filtered;
    }

    /**
     * `handleSave`: 400 for a form that does not parse or a name that is not
     * a plain ".html" name, then 403 for the rotator page, then 500 when the
     * write fails; otherwise the page holds the new content.
     */
    method HandleSave(httpMethod: string, formOk: bool, filename: string, content: string, writeOk: bool)
      returns (status: int)
      modifies this
      ensures rubbish == old(rubbish) && config == old(config)
      ensures status == StatusOK <==>
        httpMethod == "POST" && formOk && ValidFilename(filename) && filename != Rotator && writeOk
      ensures status == StatusOK ==> pages == old(pages)[filename := content]
      ensures status != StatusOK ==> pages == old(pages)
      ensures httpMethod != "POST" ==> status == StatusMethodNotAllowed
      ensures httpMethod == "POST" && formOk && !ValidFilename(filename) ==> status == StatusBadRequest
      ensures httpMethod == "POST" && !formOk ==> status == StatusBadRequest
      ensures httpMethod == "POST" && formOk && filename == Rotator ==> status == StatusForbidden
      ensures httpMethod == "POST" && formOk && ValidFilename(filename) && filename != Rotator && !writeOk ==>
        status == StatusInternalServerError
    {
      if httpMethod != "POST" {
        return StatusMethodNotAllowed;
      }
      if !formOk {
        return StatusBadRequest;
      }
      if !ValidFilename(filename) {
        return StatusBadRequest;
      }
      if filename == Rotator {
        return StatusForbidden;
      }
      if !writeOk {
        return StatusInternalServerError;
      }
      pages := pages[filename := content];
      return StatusOK;
    }

    /**
     * `handleDelete`: moves the page to the rubbish directory under
     * `<name>_<timestamp>` and removes its entry from the config. A failed
     * move answers 500 and changes nothing; after a move the config is
     * loaded ignoring errors and saved ignoring errors, and the answer is
     * 200.
     */
    method HandleDelete(httpMethod: string, request: Option<string>, mkdirOk: bool, timestamp: string, saveOk: bool)
      returns (status: int)
      modifies this
      ensures httpMethod != "POST" ==> status == StatusMethodNotAllowed
      ensures httpMethod == "POST" && request.None? ==> status == StatusBadRequest
      ensures status != StatusOK ==> pages == old(pages) && rubbish == old(rubbish) && config == old(config)
      ensures status == StatusOK <==> httpMethod == "POST" && request.Some? && mkdirOk && request.value in old(pages)
      ensures status == StatusOK ==>
        var name := request.value;
        pages == old(pages) - {name} &&
        rubbish == old(rubbish)[name + "_" + timestamp := old(pages)[name]] &&
        config == (if saveOk then Stored(WithoutPage(LoadConfig(old(config)).pages, name)) else old(config))
    {
      if httpMethod != "POST" {
        return StatusMethodNotAllowed;
      }
      if request.None? {
        return StatusBadRequest;
      }
      if !mkdirOk {
        return StatusInternalServerError;
      }
      var name := request.value;
      if name !in pages {
        return StatusInternalServerError;
      }
      rubbish := rubbish[name + "_" + timestamp := pages[name]];
      pages := pages - {name};
      var loaded := LoadConfig(config);
      if saveOk {
        config := Stored(WithoutPage(loaded.pages, name));
      }
      return StatusOK;
    }
  }

  /** Go's `delete(m, name)`: removes one entry; a nil map stays nil. */
  function WithoutPage(pages: PageMap, name: string): (r: PageMap)
    ensures pages.None? <==> r.None?
    ensures r.Some? ==> name !in r.value
    ensures r.Some? ==> forall other :: other != name ==>
      (other in r.value <==> other in pages.value) && (other in r.value ==> r.value[other] == pages.value[other])
  {
    match pages
    case None => None
    case Some(m) => Some(m - {name})
  }

  /** A page saved under a valid name other than the rotator is listed afterwards. */
  lemma ListedAfterSave(pages: map<string, string>, name: string, content: string)
    requires ValidFilename(name) && name != Rotator
    ensures name in PageList(HtmlFiles(pages[name := content]))
  {
  }

  /** A page moved to the rubbish directory is no longer listed, and every other listed page still is. */
  lemma UnlistedAfterDelete(pages: map<string, string>, name: string)
    ensures name !in PageList(HtmlFiles(pages - {name}))
    ensures forall other :: other != name ==>
      (other in PageList(HtmlFiles(pages - {name})) <==> other in PageList(HtmlFiles(pages)))
  {
  }

  /** The file list is sorted and never holds the rotator page or a name without the ".html" suffix. */
  lemma ListedPagesAreEditable(pages: map<string, string>)
    ensures StrictlySorted(PageList(HtmlFiles(pages)))
    ensures forall x :: x in PageList(HtmlFiles(pages)) ==> x in pages && EndsWith(x, ".html") && x != Rotator
  {
    PageListSorted(HtmlFiles(pages));
  }

  /**
   * Deleting a page and then loading the config shows the other pages with
   * their old status; from a mistyped file, those are the entries Go
   * managed to decode.
   */
  lemma DeleteKeepsOtherStatuses(file: ConfigFile, name: string, other: string)
    requires (file.Stored? || file.Mistyped?) && file.pages.Some? && other != name && other in file.pages.value
    ensures var after := LoadConfig(Stored(WithoutPage(LoadConfig(file).pages, name)));
      !after.failed && after.pages.Some? && other in after.pages.value &&
      after.pages.value[other] == file.pages.value[other] && name !in after.pages.value
  {
  }
}
