/**
 * The fetch loop of bin/fetch_scholar.py: for every publication filled by
 * scholarly it takes the BibTeX export (or builds a minimal entry), works
 * out the citation key, optionally downloads a thumbnail and remembers its
 * path by key, then sorts the entries by year and writes them out with a
 * `preview` field injected where a thumbnail was saved.
 *
 * Everything the script learns from the outside world is a field of
 * `Publication`: the export result, the page fetch, the download outcome
 * and the clock.
 */
module FetchScholar {
  import opened Wrappers
  import opened Text
  import opened Dict
  import opened CitationKey
  import opened Thumbnail
  import opened PreviewPath
  import opened YearSort

  /** One publication as scholarly fills it, with the outcomes of the calls
   *  the script makes for it. */
  datatype Publication = Publication(
    bib: map<string, string>,    // pub["bib"]
    links: map<string, string>,  // pub["pub_url"], pub["eprint_url"], ...
    exported: Option<string>,    // scholarly.bibtex(pub); None when it raises
    page: PageFetch,             // the response to GET page_url
    downloaded: bool,            // what download_image returns
    now: nat)                    // int(time.time()) when the fallback key is built

  const YearFields: seq<string> := ["pub_year", "year"]
  const PageUrlFields: seq<string> := ["pub_url", "eprint_url", "eprint", "gscholar_souce"]

  function TitleOf(pub: Publication): string {
    if "title" in pub.bib then pub.bib["title"] else "untitled"
  }

  function YearOf(pub: Publication): string {
    FirstNonEmpty(pub.bib, YearFields)
  }

  /** The exported entry, or the minimal one built from the bib fields. */
  function BibtexOf(pub: Publication): string {
    match pub.exported
    case Some(b) => b
    case None => FallbackBibtex(TitleOf(pub), YearOf(pub), Lookup(pub.bib, "author"), Lookup(pub.bib, "venue"), pub.now)
  }

  function KeyOf(pub: Publication): string {
    ParseBibtexKey(BibtexOf(pub), TitleOf(pub), YearOf(pub))
  }

  /** The thumbnail URL found for the publication, when it has a page URL. */
  function ThumbnailOf(pub: Publication): Option<string> {
    if FirstNonEmpty(pub.links, PageUrlFields) == [] then None
    else DiscoverThumbnail(pub.page, ScholarQueries)
  }

  /** The `preview_map` assignment this publication makes, if any. */
  function PreviewOf(pub: Publication, thumbnails: bool): (r: Option<string>)
    ensures r.Some? <==> thumbnails && ThumbnailOf(pub).Some? && ThumbnailOf(pub).value != [] && pub.downloaded
    ensures r.Some? ==> r.value == ScholarPreviewPath(KeyOf(pub), ScholarExtension(ThumbnailOf(pub).value))
  {
    if !thumbnails then None
    else match ThumbnailOf(pub)
      case Some(url) =>
        if url != [] && pub.downloaded then Some(ScholarPreviewPath(KeyOf(pub), ScholarExtension(url))) else None
      case None => None
  }

  /** The triple appended to `bib_entries`. */
  function RecordOf(pub: Publication): Entry {
    Entry(if YearOf(pub) == [] then "0000" else YearOf(pub), BibtexOf(pub), KeyOf(pub))
  }

  /** A publication without a year is recorded as `"0000"`, which sorts as
   *  unknown: after every positive year. */
  lemma MissingYearSortsAsUnknown(pub: Publication)
    requires YearOf(pub) == []
    ensures RecordOf(pub).year == "0000"
    ensures SortKey(RecordOf(pub)) == 0
  {
    PlaceholderYearSortsAsUnknown(RecordOf(pub));
  }

  function Records(pubs: seq<Publication>): (r: seq<Entry>)
    ensures |r| == |pubs|
  {
    if pubs == [] then [] else Records(pubs[..|pubs| - 1]) + [RecordOf(pubs[|pubs| - 1])]
  }
  /** Record `i` is the one built from publication `i`: the list keeps the
   *  fetch order. */
  lemma {:induction false} RecordsInFetchOrder(pubs: seq<Publication>, i: nat)
    requires i < |pubs|
    ensures Records(pubs)[i] == RecordOf(pubs[i])
    decreases |pubs|
  {
    if i < |pubs| - 1 {
      var init := pubs[..|pubs| - 1];
      RecordsInFetchOrder(init, i);
      assert init[i] == pubs[i];
    }
  }


  /** One possible `preview_map[key] = path` step. */
  datatype Assignment = Assignment(key: string, path: Option<string>)

  function AssignmentOf(pub: Publication, thumbnails: bool): Assignment {
    Assignment(KeyOf(pub), PreviewOf(pub, thumbnails))
  }

  function Assignments(pubs: seq<Publication>, thumbnails: bool): (r: seq<Assignment>)
    ensures |r| == |pubs| && forall i :: 0 <= i < |pubs| ==> r[i] == AssignmentOf(pubs[i], thumbnails)
  {
    seq(|pubs|, i requires 0 <= i < |pubs| => AssignmentOf(pubs[i], thumbnails))
  }

  /** `preview_map[key] = path` when there is a path to assign. */
  function Apply(m: map<string, string>, a: Assignment): map<string, string> {
    if a.path.Some? then m[a.key := a.path.value] else m
  }

  /** The dictionary after performing the assignments in order. */
  function Assign(steps: seq<Assignment>): map<string, string> {
    if steps == [] then map[]
    else Apply(Assign(steps[..|steps| - 1]), steps[|steps| - 1])
  }

  /** A key is in the dictionary exactly when some step assigned it, and
   *  its value comes from the last step that did. */
  lemma {:induction false} AssignLastWins(steps: seq<Assignment>, key: string)
    ensures key in Assign(steps) <==> exists i :: 0 <= i < |steps| && steps[i].key == key && steps[i].path.Some?
    ensures key in Assign(steps) ==>
              exists i :: 0 <= i < |steps| && steps[i].key == key && steps[i].path == Some(Assign(steps)[key])
                && forall j :: i < j < |steps| && steps[j].key == key ==> steps[j].path.None?
    decreases |steps|
  {
    if steps != [] {
      var init := steps[..|steps| - 1];
      var last := steps[|steps| - 1];
      AssignLastWins(init, key);
      assert Assign(steps) == Apply(Assign(init), last);
      if last.key == key && last.path.Some? {
        assert steps[|steps| - 1].path == Some(Assign(steps)[key]);
      } else {
        AssignSkipsLast(steps, key);
      }
    }
  }

  /** A last step that assigns nothing to `key` leaves what the earlier
   *  steps did to it. */
  lemma AssignSkipsLast(steps: seq<Assignment>, key: string)
    requires steps != []
    requires var last := steps[|steps| - 1]; last.key != key || last.path.None?
    requires var init := steps[..|steps| - 1];
             (key in Assign(init) <==> exists i :: 0 <= i < |init| && init[i].key == key && init[i].path.Some?)
             && (key in Assign(init) ==>
                   exists i :: 0 <= i < |init| && init[i].key == key && init[i].path == Some(Assign(init)[key])
                     && forall j :: i < j < |init| && init[j].key == key ==> init[j].path.None?)
    ensures key in Assign(steps) <==> exists i :: 0 <= i < |steps| && steps[i].key == key && steps[i].path.Some?
    ensures key in Assign(steps) ==>
              exists i :: 0 <= i < |steps| && steps[i].key == key && steps[i].path == Some(Assign(steps)[key])
                && forall j :: i < j < |steps| && steps[j].key == key ==> steps[j].path.None?
  {
    var init := steps[..|steps| - 1];
    var n := |init|;
    assert Assign(steps) == Apply(Assign(init), steps[n]);
    assert key in Assign(steps) <==> key in Assign(init);
    if key in Assign(init) {
      assert Assign(steps)[key] == Assign(init)[key];
      var i :| 0 <= i < n && init[i].key == key && init[i].path == Some(Assign(init)[key])
               && forall j :: i < j < n && init[j].key == key ==> init[j].path.None?;
      assert steps[i] == init[i];
      forall j | i < j < |steps| && steps[j].key == key
        ensures steps[j].path.None?
      {
        if j < n {
          assert steps[j] == init[j];
        }
      }
    }
    if exists i :: 0 <= i < |steps| && steps[i].key == key && steps[i].path.Some? {
      var i :| 0 <= i < |steps| && steps[i].key == key && steps[i].path.Some?;
      assert i < n && init[i] == steps[i];
    }
  }

  /** `f"  preview = {{{path}}}\n}}\n"` */
  function PreviewLine(path: string): string {
    "  preview = {" + path + "}\n}\n"
  }

  /** The injection at fetch_scholar.py:195-199: drop trailing white space
   *  and every trailing `}`, add a comma unless one is there, then the
   *  preview field and a new closing brace. */
  function InjectPreview(bibtex: string, path: string): (r: string)
    ensures EndsWith(r, PreviewLine(path))
  {
    var body := RStripChar(RStrip(bibtex), '}');
    var head := if EndsWith(Strip(body), ",") then body else body + ",\n";
    assert (head + PreviewLine(path))[|head|..] == PreviewLine(path);
    head + PreviewLine(path)
  }

  /** What comes before the injected field ends, past white space, in a
   *  comma, and starts with the entry up to its closing braces. */
  lemma InjectPreviewShape(bibtex: string, path: string)
    ensures var r := InjectPreview(bibtex, path);
            var head := r[..|r| - |PreviewLine(path)|];
            EndsWith(RStrip(head), ",") && IsPrefix(RStripChar(RStrip(bibtex), '}'), head)
  {
    var body := RStripChar(RStrip(bibtex), '}');
    var r := InjectPreview(bibtex, path);
    var head := r[..|r| - |PreviewLine(path)|];
    StripEndsWith(body, ',');
    if EndsWith(Strip(body), ",") {
      assert head == body;
    } else {
      assert head == body + ",\n";
      RStripAppendSpace(body + ",", "\n");
      assert body + ",\n" == (body + ",") + "\n";
      assert RStrip(body + ",") == body + ",";
    }
  }

  /** An entry closed by a brace on its own line after a braced field gets
   *  the comma on a line of its own before the preview field. */
  lemma InjectAfterClosingLine(head: string, path: string)
    requires head != [] && head[|head| - 1] == '}'
    ensures InjectPreview(head + "\n}", path) == head + "\n,\n" + PreviewLine(path)
  {
    var b := head + "\n}";
    assert RStrip(b) == b;
    assert b[..|b| - 1] == head + "\n";
    assert RStripChar(b, '}') == head + "\n";
    RStripAppendSpace(head, "\n");
    assert RStrip(head) == head;
    StripEndsWith(head + "\n", ',');
  }

  /** A compact entry whose last field's brace closes right before the
   *  entry's own loses that brace as well: every trailing `}` is
   *  stripped before the comma is added. */
  lemma CompactEntryLosesFieldBrace(head: string, path: string)
    requires head != [] && head[|head| - 1] != '}' && head[|head| - 1] != ',' && !IsSpace(head[|head| - 1])
    ensures InjectPreview(head + "}}", path) == head + ",\n" + PreviewLine(path)
  {
    var b := head + "}}";
    assert RStrip(b) == b;
    assert b[..|b| - 1][..|b| - 2] == head;
    assert RStripChar(b, '}') == head;
    assert RStrip(head) == head;
    StripEndsWith(head, ',');
  }

  /** The injection as the comment at fetch_scholar.py:193 intends it: only
   *  the entry's own closing brace is replaced by the preview field, so the
   *  rest of the entry, a field's closing brace included, is kept. */
  function InjectPreviewCorrected(bibtex: string, path: string): (r: string)
    ensures EndsWith(r, PreviewLine(path))
    ensures var t := RStrip(bibtex);
            t != [] && t[|t| - 1] == '}' ==> IsPrefix(t[..|t| - 1], r)
  {
    var t := RStrip(bibtex);
    var body := if t != [] && t[|t| - 1] == '}' then t[..|t| - 1] else t;
    var head := if EndsWith(Strip(body), ",") then body else body + ",\n";
    assert (head + PreviewLine(path))[|head|..] == PreviewLine(path);
    assert (head + PreviewLine(path))[..|body|] == body;
    head + PreviewLine(path)
  }

  /** The compact entry of CompactEntryLosesFieldBrace keeps its field's
   *  brace under the corrected injection. */
  lemma CorrectedKeepsFieldBrace(head: string, path: string)
    requires head != [] && head[|head| - 1] != '}' && head[|head| - 1] != ',' && !IsSpace(head[|head| - 1])
    ensures InjectPreviewCorrected(head + "}}", path) == head + "},\n" + PreviewLine(path)
  {
    var b := head + "}}";
    assert RStrip(b) == b;
    assert b[..|b| - 1] == head + "}";
    RStripAppendSpace(head + "}", []);
    assert head + "}" + [] == head + "}";
    StripEndsWith(head + "}", ',');
    assert head + "}" + ",\n" == head + "},\n";
  }

  /** On an entry whose closing brace sits on its own line, as in the
   *  fallback entry and in the exporter's entries, both injections give the
   *  same text. */
  lemma InjectionsAgreeOnClosingLine(head: string, path: string)
    ensures InjectPreview(head + "\n}", path) == InjectPreviewCorrected(head + "\n}", path)
  {
    var b := head + "\n}";
    assert RStrip(b) == b;
    assert b[..|b| - 1] == head + "\n";
    assert RStripChar(b, '}') == head + "\n";
  }

  /** `if not b.endswith("\n\n"): b = b.rstrip() + "\n\n"` */
  function EnsureBlankLine(b: string): (r: string)
    ensures EndsWith(r, "\n\n")
    ensures RStrip(r) == RStrip(b)
    ensures EndsWith(b, "\n\n") ==> r == b
  {
    if EndsWith(b, "\n\n") then b
    else
      var t := RStrip(b);
      RStripAppendSpace(t, "\n\n");
      RStripIdempotent(b);
      assert (t + "\n\n")[|t|..] == "\n\n";
      t + "\n\n"
  }

  lemma RStripIdempotent(s: string)
    ensures RStrip(RStrip(s)) == RStrip(s)
  {
    var t := RStrip(s);
    RStripSpec(s);
    if t != [] {
      assert !IsSpace(t[|t| - 1]);
    }
  }

  /** The block written for one sorted entry. */
  function FinalBlock(e: Entry, previews: map<string, string>): string {
    var b := if e.key in previews && EndsWith(Strip(e.bibtex), "}") then InjectPreview(e.bibtex, previews[e.key]) else e.bibtex;
    EnsureBlankLine(b)
  }

  function FinalBlocks(entries: seq<Entry>, previews: map<string, string>): (r: seq<string>)
    ensures |r| == |entries| && forall i :: 0 <= i < |entries| ==> r[i] == FinalBlock(entries[i], previews)
  {
    if entries == [] then []
    else FinalBlocks(entries[..|entries| - 1], previews) + [FinalBlock(entries[|entries| - 1], previews)]
  }

  /** An entry without a saved thumbnail is written as it was, up to
   *  trailing white space, followed by a blank line. */
  lemma BlockWithoutPreview(e: Entry, previews: map<string, string>)
    requires e.key !in previews || !EndsWith(RStrip(e.bibtex), "}")
    ensures RStrip(FinalBlock(e, previews)) == RStrip(e.bibtex)
    ensures EndsWith(FinalBlock(e, previews), "\n\n")
  {
    StripEndsWith(e.bibtex, '}');
  }

  /** An entry with a saved thumbnail ends with the preview field, the
   *  closing brace and a blank line. */
  lemma BlockWithPreview(e: Entry, previews: map<string, string>)
    requires e.key in previews && EndsWith(RStrip(e.bibtex), "}")
    ensures EndsWith(FinalBlock(e, previews), "  preview = {" + previews[e.key] + "}\n}\n\n")
  {
    StripEndsWith(e.bibtex, '}');
    var path := previews[e.key];
    BlankLineAfterPreview(InjectPreview(e.bibtex, path), path);
  }

  lemma BlankLineAfterPreview(r: string, path: string)
    requires EndsWith(r, PreviewLine(path))
    ensures EndsWith(EnsureBlankLine(r), "  preview = {" + path + "}\n}\n\n")
  {
    var field := "  preview = {" + path + "}\n}";
    var head := r[..|r| - |PreviewLine(path)|];
    var t := head + field;
    assert PreviewLine(path) == field + "\n";
    assert r == t + "\n";
    assert t[|t| - 1] == '}';
    BlankLineAfterClosedLine(t);
    assert (t + "\n\n")[|head|..] == field + "\n\n";
  }

  /** A last line ending in a visible character gets one more newline. */
  lemma BlankLineAfterClosedLine(t: string)
    requires t != [] && !IsSpace(t[|t| - 1])
    ensures EnsureBlankLine(t + "\n") == t + "\n\n"
  {
    var r := t + "\n";
    assert r[|r| - 2] == t[|t| - 1];
    assert !EndsWith(r, "\n\n");
    RStripAppendSpace(t, "\n");
    assert RStrip(t) == t;
  }

  lemma PrefixStep<T>(s: seq<T>, i: nat)
    requires i < |s|
    ensures s[..i + 1][..i] == s[..i] && s[..i + 1][i] == s[i]
  {
  }

  /** One turn of the fetch loop: the entry appended to `bib_entries`
   *  and the preview dictionary after the turn. */
  method CollectOne(pub: Publication, thumbnails: bool, previews: map<string, string>)
    returns (entry: Entry, previews': map<string, string>)
    ensures entry == RecordOf(pub)
    ensures previews' == Apply(previews, AssignmentOf(pub, thumbnails))
  {
    var title := TitleOf(pub);
    var year := YearOf(pub);
    var bibtex := BibtexOf(pub);
    var key := ParseBibtexKey(bibtex, title, year);
    previews' := previews;
    if thumbnails {
      previews' := SavePreview(pub, key, previews);
    }
    entry := Entry(if year == [] then "0000" else year, bibtex, key);
  }

  /** The `--thumbnails` branch: look for a thumbnail, download it to
   *  `{key}{ext}` and remember its path when the download succeeds. */
  method SavePreview(pub: Publication, key: string, previews: map<string, string>) returns (previews': map<string, string>)
    requires key == KeyOf(pub)
    ensures previews' == (if PreviewOf(pub, true).Some? then previews[key := PreviewOf(pub, true).value] else previews)
  {
    previews' := previews;
    var pageUrl := FirstNonEmpty(pub.links, PageUrlFields);
    var thumb: Option<string> := None;
    if pageUrl != [] {
      thumb := DiscoverThumbnail(pub.page, ScholarQueries);
    }
    assert thumb == ThumbnailOf(pub);
    if thumb.Some? && thumb.value != [] {
      var ext := ScholarExtension(thumb.value);
      if pub.downloaded {
        assert PreviewOf(pub, true) == Some(ScholarPreviewPath(key, ext));
        previews' := previews'[key := ScholarPreviewPath(key, ext)];
      }
    }
  }

  /** One turn of the output loop: inject the preview field when the key
   *  has one and the entry ends in a brace, then end with a blank line. */
  method WriteBlock(e: Entry, previews: map<string, string>) returns (b: string)
    ensures b == FinalBlock(e, previews)
  {
    b := e.bibtex;
    if e.key in previews && EndsWith(Strip(b), "}") {
      b := InjectPreview(b, previews[e.key]);
    }
    if !EndsWith(b, "\n\n") {
      b := RStrip(b) + "\n\n";
    }
  }

  /** The fetch loop over all publications. */
  method CollectEntries(pubs: seq<Publication>, thumbnails: bool) returns (entries: seq<Entry>, previews: map<string, string>)
    ensures entries == Records(pubs)
    ensures previews == Assign(Assignments(pubs, thumbnails))
  {
    entries := [];
    previews := map[];
    ghost var steps := Assignments(pubs, thumbnails);
    var i := 0;
    while i < |pubs|
      invariant 0 <= i <= |pubs|
      invariant entries == Records(pubs[..i])
      invariant previews == Assign(steps[..i])
    {
      var entry;
      entry, previews := CollectOne(pubs[i], thumbnails, previews);
      RecordsStep(pubs, i);
      AssignStep(steps, i);
      assert steps[i] == AssignmentOf(pubs[i], thumbnails);
      entries := entries + [entry];
      i := i + 1;
    }
    assert steps[..|pubs|] == steps;
    assert pubs[..|pubs|] == pubs;
  }

  lemma RecordsStep(pubs: seq<Publication>, i: nat)
    requires i < |pubs|
    ensures Records(pubs[..i + 1]) == Records(pubs[..i]) + [RecordOf(pubs[i])]
  {
    PrefixStep(pubs, i);
  }

  lemma AssignStep(steps: seq<Assignment>, i: nat)
    requires i < |steps|
    ensures Assign(steps[..i + 1]) == Apply(Assign(steps[..i]), steps[i])
  {
    PrefixStep(steps, i);
  }

  lemma FinalBlocksStep(sorted: seq<Entry>, previews: map<string, string>, j: nat)
    requires j < |sorted|
    ensures FinalBlocks(sorted[..j + 1], previews) == FinalBlocks(sorted[..j], previews) + [FinalBlock(sorted[j], previews)]
  {
    PrefixStep(sorted, j);
  }

  /** The output loop over the sorted entries. */
  method WriteBlocks(sorted: seq<Entry>, previews: map<string, string>) returns (blocks: seq<string>)
    ensures blocks == FinalBlocks(sorted, previews)
  {
    blocks := [];
    var j := 0;
    while j < |sorted|
      invariant 0 <= j <= |sorted|
      invariant blocks == FinalBlocks(sorted[..j], previews)
    {
      var b := WriteBlock(sorted[j], previews);
      FinalBlocksStep(sorted, previews, j);
      blocks := blocks + [b];
      j := j + 1;
    }
    assert sorted[..|sorted|] == sorted;
  }

  /** The whole run: collect, sort by year, inject and join the entries. */
  method RegenerateBibliography(pubs: seq<Publication>, thumbnails: bool) returns (blocks: seq<string>, text: string)
    ensures blocks == FinalBlocks(SortByYear(Records(pubs)), Assign(Assignments(pubs, thumbnails)))
    ensures text == Join("", blocks)
  {
    var entries, previews := CollectEntries(pubs, thumbnails);
    var sorted := SortByYear(entries);
    blocks := WriteBlocks(sorted, previews);
    text := Join("", blocks);
  }

  /** One block per publication, each ending in a blank line, in the
   *  order of the year sort. */
  lemma BibliographyShape(pubs: seq<Publication>, thumbnails: bool)
    ensures var blocks := FinalBlocks(SortByYear(Records(pubs)), Assign(Assignments(pubs, thumbnails)));
            |blocks| == |pubs| && forall i :: 0 <= i < |blocks| ==> EndsWith(blocks[i], "\n\n")
  {
    SortByYearSortsAndPermutes(Records(pubs));
  }

  /** Without `--thumbnails` no preview is assigned, so every block is the
   *  entry itself with its trailing white space normalised. */
  lemma NoThumbnailsNoPreviews(pubs: seq<Publication>)
    ensures Assign(Assignments(pubs, false)) == map[]
  {
    var steps := Assignments(pubs, false);
    forall key | true ensures key !in Assign(steps) {
      AssignLastWins(steps, key);
    }
  }
}
