/**
 * bin/add_previews.py: one pass over the entries of
 * `_bibliography/papers.bib` that gives each entry with a link and without
 * a preview a `preview` field naming a thumbnail downloaded from the
 * linked page.
 *
 * The BibTeX parser and writer, the page request and the image download
 * are outside the model and appear as parameters: `parse` maps the text to
 * its entries, `write` maps the entries back to text, `fetch` maps a URL
 * to what requesting it produced and `download(url, dest)` says whether
 * the image at `url` was saved to `dest`.
 */
module AddPreviews {
  import opened Wrappers
  import opened Text
  import opened Dict
  import opened Thumbnail
  import opened PreviewPath
  import FrontMatter

  /** A parsed BibTeX entry: its fields, `ID` and `ENTRYTYPE` included. */
  type Entry = map<string, string>

  const PreviewField := "preview"
  const KeyField := "ID"
  const UnknownKey := "unknown"
  const DoiPrefix := "10."
  const DoiResolver := "https://doi.org/"

  /** `entry.get("ID", "unknown")` */
  function EntryKey(e: Entry): string {
    if KeyField in e then e[KeyField] else UnknownKey
  }

  /** `entry.get("url") or entry.get("doi")`, empty when neither is set. */
  function Link(e: Entry): string {
    if Lookup(e, "url") != "" then Lookup(e, "url") else Lookup(e, "doi")
  }

  /** A bare DOI becomes a resolver URL; anything else is left as it is. */
  function NormalizeDoi(link: string): (url: string)
    ensures !StartsWith(url, DoiPrefix)
    ensures EndsWith(url, link)
    ensures url == link <==> !StartsWith(link, DoiPrefix)
    ensures StartsWith(link, DoiPrefix) ==> url == DoiResolver + link
  {
    if StartsWith(link, DoiPrefix) then
      assert (DoiResolver + link)[0] != DoiPrefix[0];
      DoiResolver + link
    else link
  }

  /** `ASSETS_DIR / f"{key}{ext}"`, the file the thumbnail is saved to. */
  function Dest(key: string, ext: string): string {
    AssetsDir + "/" + key + ext
  }

  /** The thumbnail the entry's page advertises, when there is a link and
   *  discovery finds a non-empty one. */
  predicate Found(e: Entry, fetch: string -> PageFetch, thumb: string) {
    Link(e) != "" && thumb != ""
    && DiscoverThumbnail(fetch(NormalizeDoi(Link(e))), PreviewQueries) == Some(thumb)
  }

  /** What happened to one entry, as the script's log line reports it. */
  datatype Outcome = NoLink | HasPreview | NoThumbnail | DownloadFailed | Saved(preview: string)

  /** The body of the per-entry loop, lines 95-130. */
  function Decide(e: Entry, fetch: string -> PageFetch, download: (string, string) -> bool): (o: Outcome)
    ensures o == NoLink <==> Link(e) == ""
    ensures o == HasPreview <==> Link(e) != "" && Lookup(e, PreviewField) != ""
    ensures o.Saved? <==>
              Lookup(e, PreviewField) == ""
              && exists t :: Found(e, fetch, t) && download(t, Dest(EntryKey(e), PreviewExtension(t)))
    ensures o.Saved? ==>
              exists t :: Found(e, fetch, t)
                && o.preview == PreviewDirName + "/" + BaseName(Dest(EntryKey(e), PreviewExtension(t)))
  {
    var link := Link(e);
    if link == "" then NoLink
    else if Lookup(e, PreviewField) != "" then HasPreview
    else
      var thumb := DiscoverThumbnail(fetch(NormalizeDoi(link)), PreviewQueries);
      if thumb.None? || thumb.value == "" then NoThumbnail
      else
        var ext := PreviewExtension(thumb.value);
        var dest := Dest(EntryKey(e), ext);
        if !download(thumb.value, dest) then DownloadFailed
        else
          assert Found(e, fetch, thumb.value);
          BaseNameUnderDir(AssetsDir, EntryKey(e) + ext);
          assert dest == AssetsDir + "/" + (EntryKey(e) + ext);
          Saved(PreviewsPreviewPath(EntryKey(e), ext))
  }

  /** The entry as the writer sees it after the loop body ran on it. */
  function Process(e: Entry, fetch: string -> PageFetch, download: (string, string) -> bool): (r: Entry)
    ensures forall k :: k != PreviewField ==> (k in r <==> k in e) && (k in e ==> r[k] == e[k])
    ensures Lookup(e, PreviewField) != "" ==> r == e
    ensures Link(e) == "" ==> r == e
    ensures r != e ==> Lookup(r, PreviewField) != "" && Decide(e, fetch, download) == Saved(r[PreviewField])
    ensures Decide(e, fetch, download).Saved? ==> r == e[PreviewField := Decide(e, fetch, download).preview]
    ensures !Decide(e, fetch, download).Saved? ==> r == e
  {
    match Decide(e, fetch, download)
    case Saved(p) => e[PreviewField := p]
    case _ => e
  }

  /** A saved preview names the downloaded file: below the image
   *  directory, `pub_preview/{key}{ext}` is where the file was saved. */
  lemma PreviewNamesSavedFile(key: string, ext: string)
    requires forall k :: 0 <= k < |key| ==> key[k] != '/'
    requires forall k :: 0 <= k < |ext| ==> ext[k] != '/'
    ensures ImageDir + "/" + PreviewsPreviewPath(key, ext) == Dest(key, ext)
  {
    var name := key + ext;
    assert PreviewsPreviewPath(key, ext) == PreviewDirName + "/" + name;
    assert Dest(key, ext) == ImageDir + "/" + PreviewDirName + "/" + name;
  }

  /** Running the loop body a second time with the same pages and
   *  downloads changes nothing: a saved preview makes the entry skip. */
  lemma ProcessIdempotent(e: Entry, fetch: string -> PageFetch, download: (string, string) -> bool)
    ensures Process(Process(e, fetch, download), fetch, download) == Process(e, fetch, download)
  {
    var r := Process(e, fetch, download);
    if r != e {
      assert Lookup(r, PreviewField) != "";
    }
  }

  /** The loop over `bib_db.entries`: each entry is updated in place. */
  function Pass(entries: seq<Entry>, fetch: string -> PageFetch, download: (string, string) -> bool): seq<Entry> {
    seq(|entries|, i requires 0 <= i < |entries| => Process(entries[i], fetch, download))
  }

  /** The loop at add_previews.py:94-130. */
  method AttachPreviews(entries: seq<Entry>, fetch: string -> PageFetch, download: (string, string) -> bool)
    returns (updated: seq<Entry>)
    ensures updated == Pass(entries, fetch, download)
    ensures |updated| == |entries|
    ensures forall i, k :: 0 <= i < |entries| && k != PreviewField ==>
              (k in updated[i] <==> k in entries[i]) && (k in entries[i] ==> updated[i][k] == entries[i][k])
    ensures forall i :: 0 <= i < |entries| && Lookup(entries[i], PreviewField) != "" ==> updated[i] == entries[i]
    ensures forall i :: 0 <= i < |entries| && Decide(entries[i], fetch, download).Saved? ==>
              updated[i] == entries[i][PreviewField := Decide(entries[i], fetch, download).preview]
    ensures forall i :: 0 <= i < |entries| && !Decide(entries[i], fetch, download).Saved? ==>
              updated[i] == entries[i]
  {
    updated := entries;
    var i := 0;
    while i < |updated|
      invariant 0 <= i <= |updated| == |entries|
      invariant forall j :: 0 <= j < i ==> updated[j] == Process(entries[j], fetch, download)
      invariant forall j :: i <= j < |updated| ==> updated[j] == entries[j]
      decreases |updated| - i
    {
      updated := updated[i := Process(updated[i], fetch, download)];
      i := i + 1;
    }
  }

  /** A second pass with the same pages and downloads changes nothing. */
  lemma PassIdempotent(entries: seq<Entry>, fetch: string -> PageFetch, download: (string, string) -> bool)
    ensures Pass(Pass(entries, fetch, download), fetch, download) == Pass(entries, fetch, download)
  {
    var once := Pass(entries, fetch, download);
    forall i | 0 <= i < |entries|
      ensures Pass(once, fetch, download)[i] == once[i]
    {
      ProcessIdempotent(entries[i], fetch, download);
    }
  }

  /** `main()`: set the front matter aside, parse, attach previews, write
   *  back, and put the front matter in front again. */
  method UpdateBibliography(raw: string, parse: string -> seq<Entry>, write: seq<Entry> -> string,
                            fetch: string -> PageFetch, download: (string, string) -> bool)
    returns (entries: seq<Entry>, outText: string)
    ensures entries == Pass(parse(FrontMatter.BibText(raw)), fetch, download)
    ensures outText == FrontMatter.Restore(raw, write(entries))
  {
    var lines, endIdx, bibText := FrontMatter.SetAside(raw);
    entries := AttachPreviews(parse(bibText), fetch, download);
    outText := FrontMatter.PutBack(lines, endIdx, write(entries));
  }
}
