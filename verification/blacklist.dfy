/**
 * The exclusion store of the advanced scraper: the built-in blacklist, the lines of
 * `blacklist.txt`, and the append-only update that the crawl performs.
 */
module Blacklist {
  import opened PyText

  /** The six URLs `load_blacklist` always returns. */
  const Defaults: set<string> := {
    "https://www.myus.com/about/contact/",
    "https://mobile.yoox.com/customercare/contact-us",
    "https://www.myus.com",
    "https://www.ups.com/upsemail/input?loc=en_US",
    "https://www.bestbuy.com/contact-us",
    "https://www2.hm.com/en_us/customer-service/contact.html"
  }

  /**
   * The in-memory blacklist together with the persisted file, as the lines iterating over it
   * yields (each with its line break). A missing file reads as no lines.
   */
  datatype Store = Store(urls: set<string>, file: seq<string>)

  /** `load_blacklist`: the defaults plus every non-blank line of the file, stripped. */
  function Load(file: seq<string>): (r: set<string>)
    ensures Defaults <= r
    ensures forall l :: l in file && Strip(l) != "" ==> Strip(l) in r
    ensures forall u :: u in r && u !in Defaults ==> u != "" && Trimmed(u) && exists l :: l in file && Strip(l) == u
  {
    Defaults + Entries(file)
  }

  /** The non-blank lines of the file, stripped. */
  function Entries(file: seq<string>): set<string> {
    set l | l in file && Strip(l) != "" :: Strip(l)
  }

  /** Appending a line adds its stripped text, unless that is blank. */
  lemma EntriesAppend(file: seq<string>, line: string)
    ensures Entries(file + [line]) == Entries(file) + (if Strip(line) == "" then {} else {Strip(line)})
  {
    var extra := if Strip(line) == "" then {} else {Strip(line)};
    forall u | u in Entries(file + [line]) ensures u in Entries(file) + extra {
      var l :| l in file + [line] && Strip(l) != "" && Strip(l) == u;
      if l !in file {
        assert l == line;
      }
    }
    forall u | u in Entries(file) + extra ensures u in Entries(file + [line]) {
      if u in extra {
        assert line in file + [line];
      } else {
        var l :| l in file && Strip(l) != "" && Strip(l) == u;
        assert l in file + [line];
      }
    }
  }

  /** The module-level `blacklist = load_blacklist()` run when the page is loaded. */
  function Startup(file: seq<string>): (st: Store)
    ensures Synced(st)
  {
    Store(Load(file), file)
  }

  /** The in-memory set is exactly what reloading the file would give. */
  ghost predicate Synced(st: Store) {
    st.urls == Load(st.file)
  }

  /** `update_blacklist`: append and insert the URL, unless it is already blacklisted. */
  function Update(url: string, st: Store): (r: Store)
    ensures r.urls == st.urls + {url}
    ensures url in st.urls ==> r == st
    ensures url !in st.urls ==> r.file == st.file + [url + "\n"]
  {
    if url in st.urls then st
    else Store(st.urls + {url}, st.file + [url + "\n"])
  }

  /** Adding a URL twice is adding it once. */
  lemma UpdateIdempotent(url: string, st: Store)
    ensures Update(url, Update(url, st)) == Update(url, st)
  {
  }

  /** The file only ever grows by appending: earlier lines are never rewritten. */
  lemma UpdateAppendsOnly(url: string, st: Store)
    ensures |st.file| <= |Update(url, st).file| <= |st.file| + 1
    ensures Update(url, st).file[..|st.file|] == st.file
  {
  }

  /**
   * Reloading the file after an update yields the old reload plus the stripped URL, when that
   * is non-blank and the URL was not already in memory.
   */
  lemma UpdateThenLoad(url: string, st: Store)
    ensures Load(Update(url, st).file)
      == Load(st.file) + (if url in st.urls || Strip(url) == "" then {} else {Strip(url)})
  {
    if url !in st.urls {
      StripDropsTrailingSpace(url, '\n');
      EntriesAppend(st.file, url + "\n");
    }
  }

  /** A URL that strips to itself. Search results are of this kind. */
  predicate Clean(url: string) {
    url != "" && Trimmed(url)
  }

  /** Updating with a clean URL keeps memory and file in step. */
  lemma UpdateKeepsSynced(url: string, st: Store)
    requires Synced(st) && Clean(url)
    ensures Synced(Update(url, st))
  {
    UpdateThenLoad(url, st);
    assert Strip([] + url + []) == url by { StripOf([], url, []); }
    assert [] + url + [] == url;
  }

  /**
   * Every URL of the in-memory set that strips to itself survives a reload of the file. Weaker
   * than `Synced`: a URL with surrounding blanks may be in memory without being reloaded.
   */
  ghost predicate Persisted(st: Store) {
    forall u :: u in st.urls && Clean(u) ==> u in Load(st.file)
  }

  /** An update, with any URL, keeps every clean in-memory URL reloadable. */
  lemma UpdateKeepsPersisted(url: string, st: Store)
    requires Persisted(st)
    ensures Persisted(Update(url, st))
  {
    UpdateThenLoad(url, st);
    if url !in st.urls && Clean(url) {
      assert Strip([] + url + []) == url by { StripOf([], url, []); }
      assert [] + url + [] == url;
    }
  }
}
