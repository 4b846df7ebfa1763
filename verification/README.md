# Publication-list maintenance scripts, modelled in Dafny

A site's publication list lives in `_bibliography/papers.bib`, and two scripts maintain it.

- `bin/fetch_scholar.py` rebuilds the file from a Google Scholar author profile. For each publication it:
  - takes the BibTeX text, or synthesises a minimal `@article` entry when none can be had;
  - derives the entry's citation key;
  - optionally downloads a thumbnail advertised by the publication's page;
  - sorts the entries by year, newest first;
  - splices a `preview = {…}` field into entries that have a saved thumbnail;
  - makes every block end in a blank line.
- `bin/add_previews.py` takes an existing file in several steps:
  - It sets aside a leading `---` front-matter block.
  - For each entry with a `url` or `doi` and no `preview`, it looks for a thumbnail on the linked page.
  - It sets `preview` when the download succeeds.
  - It puts the front matter back in front.

The project models the deterministic rules inside these scripts and proves what they promise. The rules are:
- slug making and citation-key parsing;
- the fallback entry;
- the priority order of the `<meta>` tags that name a thumbnail;
- extension and preview-path choice;
- the year sort;
- preview injection and block normalisation;
- front-matter split and restore;
- the per-entry skip rules.

The outside world is passed in as data or as function parameters:
- A page request is a `PageFetch`: either a failure, or a status with the page's meta tags in document order.
- A download is a boolean outcome: a publication's `downloaded` field, or a `download(url, dest)` parameter.
- The BibTeX parser and writer used by `add_previews.py` are `parse` and `write` parameters.
- The clock reading used for the last-resort key is a `now` parameter.

The modules are:
- `Text`: Python's string primitives as the scripts use them. These are `strip`, `rstrip`, `rstrip(c)`, ASCII `lower`, `splitlines`, `"\n".join`, clamped slicing, `split("?")[0]`, `str(n)` and `int(s)`.
- `Dict`: `dict.get(k) or …` chains.
- `Slug`: `slugify`.
- `CitationKey`: `parse_bibtex_key` and the fallback entry.
- `Thumbnail`: the meta-tag selection of both `discover_thumbnail_url` functions.
- `PreviewPath`: the two extension rules and the two preview paths.
- `YearSort`: `_sort_key` and the stable sort.
- `FetchScholar`: the collection loop, the preview map, injection and normalisation, and the whole regeneration. The loops are methods proved against specification functions.
- `FrontMatter`: the front-matter scan, the split and the restore, with the scan as a loop.
- `AddPreviews`: DOI normalisation, the per-entry decision, the in-place update loop and `main`.

Two details of the code are worth knowing before reading the model:
- **Front-matter marker.** A front-matter marker is any line whose `strip()` is `---`, so `  ---  ` counts too (`add_previews.py:76`, `:80`).
- **Unknown years.** The comment at `fetch_scholar.py:179` says "sort by year desc (unknown last)". But `_sort_key` gives an unknown year key 0 (`fetch_scholar.py:180-185`). So unknown years sort after every positive year, tie with year `0`, and come *before* negative years. `YearSort.KnownYearsBeforeUnknown` is therefore stated for positive years against every entry with key 0, the `"0000"` placeholder of a missing year included.

## Model

| member | source | states |
|---|---|---|
| Slug.KeepSlugChars | bin/fetch_scholar.py:21 | the filter keeps only `a-z`, `0-9`, `-` and white space, and never lengthens the text |
| Slug.CollapseSpaces | bin/fetch_scholar.py:22 | `re.sub(r"\s+", "-", …)`: each maximal white-space run becomes one hyphen (meaning stated by CollapseSpacesAfterWord and CollapseSpacesAfterSpaces) |
| Slug.SqueezeHyphens | bin/fetch_scholar.py:23 | `re.sub(r"-+", "-", …)`: each maximal hyphen run becomes one hyphen (meaning stated by SqueezeAfterWord and SqueezeAfterHyphens) |
| Slug.CollapseSpacesOfKept | bin/fetch_scholar.py:22 | after the filter, replacing white-space runs by `-` leaves only slug characters |
| Slug.SqueezeOfSlugChars | bin/fetch_scholar.py:23 | squeezing hyphen runs keeps a text of slug characters one |
| Slug.SqueezeLeavesNoDoubleHyphen | bin/fetch_scholar.py:23 | after `re.sub(r"-+", "-", …)` no two hyphens are adjacent, whatever the input |
| Slug.Truncate | bin/fetch_scholar.py:24 | `text[:80]` is a prefix of the text of length at most 80 |
| Slug.Slugify | bin/fetch_scholar.py:19-24 | every slug has at most 80 characters, all from `a-z`, `0-9`, `-`, and contains no `--` |
| Slug.SlugIsFixedPoint | bin/fetch_scholar.py:19-24 | a text that is already a slug is its own slug |
| Slug.SlugifyIdempotent | bin/fetch_scholar.py:19-24 | `slugify(slugify(t)) == slugify(t)` for every text |
| Slug.KeepSlugCharsAppend | bin/fetch_scholar.py:21 | the character filter works piece by piece over concatenation |
| Slug.CollapseSpacesAfterWord | bin/fetch_scholar.py:22 | text without white space passes the run collapse unchanged |
| Slug.CollapseSpacesAfterSpaces | bin/fetch_scholar.py:22 | a whole white-space run, however long, becomes one hyphen |
| Slug.SqueezeAfterWord | bin/fetch_scholar.py:23 | text without hyphens passes the hyphen squeeze unchanged |
| Slug.SqueezeAfterHyphens | bin/fetch_scholar.py:23 | a whole run of hyphens, however long, followed by text not starting with a hyphen becomes one hyphen |
| Slug.FourWords | bin/fetch_scholar.py:22-23 | words separated by white-space runs come out joined by single hyphens |
| Slug.SlugifyExample | bin/fetch_scholar.py:19-24 | `slugify("A Study: Of  THINGS!!")` is `a-study-of-things` |
| CitationKey.KeyAt | bin/fetch_scholar.py:65-67 | the captured group of a match is non-empty and contains no comma |
| CitationKey.MatchAt | bin/fetch_scholar.py:65 | position `i` starts a match of `@\w+\{[^,]+`: `@`, a word run, `{`, then a non-comma character |
| CitationKey.SearchKey | bin/fetch_scholar.py:65-67 | `re.search` scanning from a position: a found key is non-empty and comma-free (found exactly when a match exists: SearchKeyFinds; leftmost: SearchKeyIsLeftmost) |
| CitationKey.SearchKeyFinds | bin/fetch_scholar.py:65-66 | `re.search(r"@\w+\{([^,]+)", …)` succeeds exactly when some position starts a match |
| CitationKey.SearchKeyIsLeftmost | bin/fetch_scholar.py:65-67 | the search returns the key of the leftmost match |
| CitationKey.ParseBibtexKey | bin/fetch_scholar.py:64-71 | with a match, the key is the leftmost match's group; without one, it is the title's slug, followed by `-year` exactly when the year is non-empty |
| CitationKey.KeyOfEntryHead | bin/fetch_scholar.py:64-67 | a text starting `@type{key,` parses to `key`, whatever the title and year |
| CitationKey.SynthesizedKeyExample | bin/fetch_scholar.py:68-71 | without `@`, title `A Study: Of  THINGS!!` and year `2021` give `a-study-of-things-2021` |
| CitationKey.FallbackKey | bin/fetch_scholar.py:150 | the key is the slug of `title-year`, or `key<now>` when that slug is empty; either way non-empty and comma-free |
| CitationKey.FallbackFields | bin/fetch_scholar.py:151-158 | `title` is always present; `author`, `year`, `journal` are present exactly when their values are non-empty; every field carries its own value |
| CitationKey.OptionalField | bin/fetch_scholar.py:152-158 | a conditional field is present exactly when its value is non-empty, and adds no other field |
| CitationKey.FallbackBibtex | bin/fetch_scholar.py:159 | the entry starts `@article{<key>,\n` and ends with `\n}` |
| CitationKey.RenderEntry | bin/fetch_scholar.py:159 | the entry starts `@<type>{<key>,\n` and ends with `\n}`, for every type, key and field list |
| CitationKey.RenderedKeyRecovered | bin/fetch_scholar.py:159-161 | an entry rendered with a word-character type and a non-empty comma-free key gives that key back to `parse_bibtex_key`, whatever its fields, title and year |
| CitationKey.FallbackKeyRecovered | bin/fetch_scholar.py:147-161 | parsing the fallback entry, rendered by RenderEntry, gives back the fallback key |
| Dict.FirstNonEmpty | bin/fetch_scholar.py:165 | an `a or b or …` chain of lookups is empty exactly when all are empty, and otherwise the first non-empty value |
| Thumbnail.FirstMatch | bin/fetch_scholar.py:82 | `soup.find` gives the first tag with that attribute and name, or none when no tag has them |
| Thumbnail.SelectFrom | bin/fetch_scholar.py:81-85 | a thumbnail is found exactly when some queried name's first tag has non-empty content |
| Thumbnail.SelectFromFirstHit | bin/fetch_scholar.py:81-84 | the result is the stripped content of the first hit in priority order |
| Thumbnail.DiscoverThumbnail | bin/fetch_scholar.py:74-87 | a failed request or a status other than 200 gives no thumbnail; otherwise the tag selection decides |
| Thumbnail.SelectAppend | bin/add_previews.py:33-42 | trying one list of names and then another is the same as trying the concatenated list |
| Thumbnail.SelectAppendHitInFirst | bin/add_previews.py:33-36 | a hit in the first list decides the result |
| Thumbnail.SelectAppendHitInSecond | bin/add_previews.py:37-41 | with no hit in the first list, the second list decides |
| Thumbnail.PreviewQueriesExtendScholarQueries | bin/add_previews.py:22-45 | the second script's discovery is the first script's, with the `name=` fallback tried only when that finds nothing |
| Thumbnail.OnlyFirstElementPerLookup | bin/fetch_scholar.py:82-83 | when the first tag for a name has no content, later tags with the same name are not consulted |
| Thumbnail.BlankContentStopsSearch | bin/fetch_scholar.py:83-84 | content made only of white space still ends the search, and gives the empty string |
| PreviewPath.LastIndexOf | bin/fetch_scholar.py:170 | the last position holding the character, or -1 |
| PreviewPath.SplitExt | bin/fetch_scholar.py:170 | `os.path.splitext(p)[1]` is empty or a dot-led suffix of `p` with no further dot or slash |
| PreviewPath.ScholarExtension | bin/fetch_scholar.py:170 | the extension starts with a dot, has no `/` or `?`, and is `.jpg` or a suffix of the URL before its first `?` |
| PreviewPath.ScholarExtensionIgnoresQuery | bin/fetch_scholar.py:170 | a query string does not change the extension |
| PreviewPath.ExtensionFromLastDot | bin/fetch_scholar.py:170 | a last path component with a non-leading dot gives the text from its last dot |
| PreviewPath.SplitExtOfDottedComponent | bin/fetch_scholar.py:170 | for any path whose last component has a dot: the extension is the text from the last dot when a non-dot precedes it in the component, and empty when only dots do |
| PreviewPath.SplitExtOfUndottedComponent | bin/fetch_scholar.py:170 | for any path whose last component has no dot, the extension is empty, whatever dots earlier directories hold |
| PreviewPath.ScholarExtensionOfPath | bin/fetch_scholar.py:170 | for any URL whose path before `?` ends in a dotted component: the text from the last dot, or `.jpg` when only dots precede it |
| PreviewPath.ScholarExtensionWithoutDot | bin/fetch_scholar.py:170 | a URL whose last path component before `?` has no dot gets `.jpg` |
| PreviewPath.HostSuffixIsExtension | bin/fetch_scholar.py:170 | a URL with no path after its host takes the host's last label as extension, e.g. `.com` |
| PreviewPath.PreviewExtension | bin/add_previews.py:117-121 | `.png` exactly when the lower-cased URL contains `.png`; `.gif` exactly when it contains `.gif` and not `.png`; `.jpg` otherwise |
| PreviewPath.BaseName | bin/fetch_scholar.py:174 | `Path.name` is a slash-free suffix of the path, and the whole path when it has no slash |
| PreviewPath.BaseNameUnderDir | bin/add_previews.py:123-126 | the directory a file is saved in does not change its name |
| PreviewPath.ScholarPreviewPath | bin/fetch_scholar.py:171-174 | the preview of a slash-free key is `assets/img/pub_preview/<key><ext>` |
| PreviewPath.PreviewsPreviewPath | bin/add_previews.py:123-126 | the preview of a slash-free key is `pub_preview/<key><ext>` |
| YearSort.SortKey | bin/fetch_scholar.py:180-185 | `_sort_key`: minus the integer year when `int(year)` succeeds, else 0 (stated by SortKeyOfYear and PlaceholderYearSortsAsUnknown) |
| YearSort.Decorate | bin/fetch_scholar.py:187 | pairs each entry with its `_sort_key`, in order, as `list.sort(key=…)` does |
| YearSort.SortByYear | bin/fetch_scholar.py:187 | `bib_entries.sort(key=_sort_key)` as decorate, stable insertion sort on the key, undecorate (stated by SortByYearSortsAndPermutes and SortByYearIsStable) |
| YearSort.InsertSorted | bin/fetch_scholar.py:187 | inserting into a key-sorted list keeps it key-sorted |
| YearSort.InsertPermutes | bin/fetch_scholar.py:187 | insertion adds exactly the inserted element |
| YearSort.SortKeyedSortsAndPermutes | bin/fetch_scholar.py:187 | the sort orders by key and is a permutation |
| YearSort.SortByYearSortsAndPermutes | bin/fetch_scholar.py:180-187 | `bib_entries.sort(key=_sort_key)` is ordered by `_sort_key` and is a permutation of the entries |
| YearSort.SortKeyedIsStable | bin/fetch_scholar.py:187 | the entries sharing a key keep their relative order |
| YearSort.InsertWithKey | bin/fetch_scholar.py:187 | an inserted element lands after all earlier elements with its key |
| YearSort.SortByYearIsStable | bin/fetch_scholar.py:187 | entries with equal `_sort_key` stay in fetch order |
| YearSort.NewerYearsFirst | bin/fetch_scholar.py:179-187 | numeric years come out in non-increasing order |
| YearSort.KnownYearsBeforeUnknown | bin/fetch_scholar.py:179-187 | every entry with a positive numeric year precedes every entry sorted as unknown (key 0): a non-numeric year, `"0000"` or `"0"` |
| YearSort.SortKeyOfYear | bin/fetch_scholar.py:180-183 | the decimal text of year `y` has key `-y` |
| YearSort.PlaceholderYearSortsAsUnknown | bin/fetch_scholar.py:177-185 | the `"0000"` placeholder for a missing year has key 0, like a non-numeric year |
| Text.Lower | bin/fetch_scholar.py:20 | lower-casing maps `A-Z` to `a-z` position by position and keeps every other character |
| Text.LStripSpec | bin/fetch_scholar.py:20 | `lstrip` removes exactly the leading white-space run |
| Text.Strip | bin/fetch_scholar.py:20 | `str.strip()` as `lstrip` of `rstrip` |
| Text.RStrip | bin/fetch_scholar.py:195 | `str.rstrip()`; what it removes is stated by RStripSpec |
| Text.RStripSpec | bin/fetch_scholar.py:195 | `rstrip` removes exactly the trailing white-space run |
| Text.RStripChar | bin/fetch_scholar.py:195 | `rstrip('}')` removes exactly the trailing run of `}` |
| Text.StripEndsWith | bin/fetch_scholar.py:194-197 | for a non-space character, `strip().endswith(c)` and `rstrip().endswith(c)` agree |
| Text.RStripAppendSpace | bin/fetch_scholar.py:202 | trailing white space does not change `rstrip` |
| Text.SplitLinesHaveNoBreaks | bin/add_previews.py:75 | no line from `splitlines` contains a line break |
| Text.SplitLinesCons | bin/add_previews.py:75 | a line followed by `\n` splits off as the first line |
| Text.SplitLinesCrLf | bin/add_previews.py:75 | a line followed by `\r\n` splits off as one line, with no empty line between `\r` and `\n` |
| Text.SplitLines | bin/add_previews.py:75 | `str.splitlines()`: `\r\n` is one boundary and a final boundary opens no empty line (stated by SplitLinesHaveNoBreaks, SplitLinesCons and SplitLinesCrLf) |
| Text.JoinAppend | bin/add_previews.py:83 | joining two non-empty lists is joining each with a separator between |
| Text.Join | bin/add_previews.py:83 | `sep.join(parts)` (stated by JoinAppend) |
| Text.BeforeFirst | bin/fetch_scholar.py:170 | `s.split(c)[0]` is the longest prefix of `s` without `c` |
| Text.NatToString | bin/fetch_scholar.py:150 | `str(n)` of a natural number is a non-empty run of digits |
| Text.ParseIntOfNatToString | bin/fetch_scholar.py:183 | `int(str(n)) == n` |
| Text.ParseIntDigits | bin/fetch_scholar.py:183 | `int` of a run of digits is its decimal value |
| Text.ParseInt | bin/fetch_scholar.py:183 | `int(s)`: white space `int` skips around the number, an optional sign, digits with single underscores between them; None where Python raises ValueError |
| Text.IntRTrimSpec | bin/fetch_scholar.py:183 | `int` ignores exactly the trailing run of its white space: space, `\t` to `\r` and the non-ASCII `isspace` characters |
| Text.IntLTrimSpec | bin/fetch_scholar.py:183 | `int` ignores exactly the leading run of the same white space |
| Text.ParseIntRejectsSeparator | bin/fetch_scholar.py:182-185 | a year starting with U+001C to U+001F is not a number to `int`, although `str.isspace` accepts that character |
| FetchScholar.TitleOf | bin/fetch_scholar.py:141 | `pub["bib"].get("title", "untitled")` |
| FetchScholar.YearOf | bin/fetch_scholar.py:142 | `pub_year`, else `year`, empty when neither is set |
| FetchScholar.BibtexOf | bin/fetch_scholar.py:143-159 | the exported BibTeX when the export succeeded, else the fallback entry |
| FetchScholar.KeyOf | bin/fetch_scholar.py:161 | the key `parse_bibtex_key` gives the publication's BibTeX, title and year |
| FetchScholar.ThumbnailOf | bin/fetch_scholar.py:165-168 | discovery on the first non-empty page URL field, none when there is none |
| FetchScholar.RecordOf | bin/fetch_scholar.py:177 | the `(year or "0000", bibtex, key)` triple appended for a publication |
| FetchScholar.MissingYearSortsAsUnknown | bin/fetch_scholar.py:177-185 | a publication without a year is recorded as `"0000"`, which has the unknown key 0 and so follows every positive year |
| FetchScholar.PreviewOf | bin/fetch_scholar.py:163-175 | a preview is recorded exactly when thumbnails are on, discovery finds a non-empty URL and the download succeeds, and then it is the scholar preview path of the key and extension |
| FetchScholar.Records | bin/fetch_scholar.py:177 | one record per fetched publication |
| FetchScholar.RecordsInFetchOrder | bin/fetch_scholar.py:140-177 | record `i` is the one built from publication `i`: the list keeps the fetch order |
| FetchScholar.AssignLastWins | bin/fetch_scholar.py:175 | a key is in `preview_map` exactly when some publication with that key saved a preview, and its path is the one from the last such publication |
| FetchScholar.Assign | bin/fetch_scholar.py:175 | `preview_map` after the `preview_map[key] = preview_rel` assignments in fetch order (stated by AssignLastWins) |
| FetchScholar.NoThumbnailsNoPreviews | bin/fetch_scholar.py:164-175 | without `--thumbnails` the preview map stays empty |
| FetchScholar.InjectPreview | bin/fetch_scholar.py:194-199 | an injected entry ends with `  preview = {path}\n}\n` |
| FetchScholar.InjectPreviewShape | bin/fetch_scholar.py:195-198 | the text before the preview line keeps the entry without its closing braces and ends, past white space, in a comma |
| FetchScholar.InjectAfterClosingLine | bin/fetch_scholar.py:195-199 | an entry whose last field ends in `}` on its own line gets a comma on a line of its own |
| FetchScholar.CompactEntryLosesFieldBrace | bin/fetch_scholar.py:195 | `rstrip('}')` also removes the last field's brace when it sits right before the entry's brace |
| FetchScholar.InjectPreviewCorrected | bin/fetch_scholar.py:193-199 | the corrected injection keeps everything before the entry's own closing brace and ends with the preview line |
| FetchScholar.CorrectedKeepsFieldBrace | bin/fetch_scholar.py:193-199 | under the corrected injection a compact entry keeps its last field's brace |
| FetchScholar.InjectionsAgreeOnClosingLine | bin/fetch_scholar.py:193-199 | on an entry closed by a brace on its own line, as the fallback entry is, the script's injection and the corrected one give the same text |
| FetchScholar.EnsureBlankLine | bin/fetch_scholar.py:201-202 | every block ends with `\n\n`, only trailing white space changes, and a block already ending in `\n\n` is untouched |
| FetchScholar.RStripIdempotent | bin/fetch_scholar.py:202 | `rstrip` applied twice is `rstrip` |
| FetchScholar.FinalBlocks | bin/fetch_scholar.py:190-203 | exactly one block per sorted entry, in the same order |
| FetchScholar.FinalBlock | bin/fetch_scholar.py:191-203 | one turn of the output loop: inject when the key has a preview and the stripped text ends in `}`, then ensure a blank line (stated by BlockWithPreview and BlockWithoutPreview) |
| FetchScholar.BlockWithoutPreview | bin/fetch_scholar.py:191-203 | an entry without a map key, or whose text does not end in `}`, changes only in trailing white space and ends with a blank line |
| FetchScholar.BlockWithPreview | bin/fetch_scholar.py:192-203 | an entry with a saved preview ends with `  preview = {path}\n}\n\n` |
| FetchScholar.BlankLineAfterPreview | bin/fetch_scholar.py:199-202 | normalising an injected entry keeps the preview line and closing brace before the blank line |
| FetchScholar.CollectOne | bin/fetch_scholar.py:140-177 | one loop iteration appends the publication's record and applies its preview assignment |
| FetchScholar.SavePreview | bin/fetch_scholar.py:164-175 | the map gains `key -> path` exactly when the preview is saved, and is otherwise unchanged |
| FetchScholar.CollectEntries | bin/fetch_scholar.py:140-177 | the loop's list is the records in fetch order and its map is the last-wins assignment of the saved previews |
| FetchScholar.WriteBlock | bin/fetch_scholar.py:191-203 | the loop body writes the normalised block of the entry |
| FetchScholar.WriteBlocks | bin/fetch_scholar.py:190-203 | the output loop writes the final block of every sorted entry in order |
| FetchScholar.RegenerateBibliography | bin/fetch_scholar.py:137-205 | the written file is the concatenation of the final blocks of the year-sorted records under the assigned previews |
| FetchScholar.BibliographyShape | bin/fetch_scholar.py:187-205 | the file has exactly one block per fetched publication, duplicates included, and every block ends in `\n\n` |
| FrontMatter.IsMarker | bin/add_previews.py:80 | a line is a marker when its `strip()` is `---` |
| FrontMatter.FindFrom | bin/add_previews.py:79-82 | the scan's stopping point lies between its start and the end of the lines |
| FrontMatter.FindFromIsFirstMarker | bin/add_previews.py:79-82 | the scan stops at the first marker line at or after its start |
| FrontMatter.ClosingIndex | bin/add_previews.py:78-82 | `end_idx` is at least 1, and is a line index unless it is the default 1 |
| FrontMatter.ClosingIndexIsFirstMarker | bin/add_previews.py:78-82 | with a closing marker, `end_idx` is the first marker after line 0; without one, it stays 1 |
| FrontMatter.FindClosingMarker | bin/add_previews.py:78-82 | the `for`/`break` loop computes `end_idx` |
| FrontMatter.UnclosedFrontMatter | bin/add_previews.py:78-83 | without a closing marker the body is `lines[2:]` and the front is `lines[:2]` |
| FrontMatter.ClosingAfterOneLine | bin/add_previews.py:79-82 | one metadata line followed by a marker closes at index 2 |
| FrontMatter.NoFrontMatter | bin/add_previews.py:84-85 | when the first line is not a marker, the parser gets the raw text and the output is the writer's text unchanged |
| FrontMatter.BibText | bin/add_previews.py:74-85 | the text handed to the parser: the lines after `end_idx`, joined, or the raw text without front matter (stated by NoFrontMatter, FrontAndBodyReassemble, UnclosedFrontMatter) |
| FrontMatter.Restore | bin/add_previews.py:138-141 | the written text with `lines[:end_idx+1]`, joined, and a blank line in front when front matter existed (stated by RestoreKeepsMarkers, MetadataBlock) |
| FrontMatter.FrontAndBodyReassemble | bin/add_previews.py:83 | the joined front lines, a newline and the parsed text are the joined original lines |
| FrontMatter.SetAside | bin/add_previews.py:74-85 | the split computes the lines, the closing index and the text handed to the parser |
| FrontMatter.PutBack | bin/add_previews.py:138-141 | the restore puts `lines[:end_idx+1]`, joined, and a blank line before the writer's text |
| FrontMatter.FrontKeepsMarkers | bin/add_previews.py:140 | the restored front starts with the opening marker line and ends with the closing one |
| FrontMatter.RestoreKeepsMarkers | bin/add_previews.py:139-141 | the output starts with the opening marker line and ends with a blank line and the writer's text |
| FrontMatter.MetadataBlock | bin/add_previews.py:75-141 | a three-line front matter is cut off before parsing and glued back verbatim, with a blank line before the entries |
| AddPreviews.EntryKey | bin/add_previews.py:95 | `entry.get("ID", "unknown")` |
| AddPreviews.Link | bin/add_previews.py:96 | `entry.get("url") or entry.get("doi")`, empty when neither is set |
| AddPreviews.NormalizeDoi | bin/add_previews.py:106-108 | a link starting `10.` becomes exactly `https://doi.org/` + link; any other link is unchanged |
| AddPreviews.Dest | bin/add_previews.py:123 | `ASSETS_DIR / f"{key}{ext}"`, the file the thumbnail is saved to |
| AddPreviews.Decide | bin/add_previews.py:95-130 | no link means skip; a non-empty preview means skip; a preview is saved exactly when a thumbnail is found and downloaded, and it names the saved file |
| AddPreviews.Process | bin/add_previews.py:94-130 | a Saved decision sets `preview` to the saved path and changes nothing else; every other decision leaves the entry unchanged |
| AddPreviews.PreviewNamesSavedFile | bin/add_previews.py:123-127 | under the image directory, the preview names exactly the file the thumbnail was saved to |
| AddPreviews.ProcessIdempotent | bin/add_previews.py:101-104 | a second run over an entry changes nothing, since a saved preview makes it skip |
| AddPreviews.Pass | bin/add_previews.py:94-130 | the loop body applied to every entry, in place and in order |
| AddPreviews.AttachPreviews | bin/add_previews.py:94-130 | the loop updates entries in place: same count and order; an entry whose decision is Saved gets exactly that `preview` added, every other entry stays as it is; no field but `preview` changes |
| AddPreviews.PassIdempotent | bin/add_previews.py:94-130 | a second pass with the same pages and downloads changes nothing |
| AddPreviews.UpdateBibliography | bin/add_previews.py:67-146 | the output is the writer's text for the updated entries, with the front matter restored |

## Left out

- Network and HTML. The HTTP requests, the streamed image download (`download_image`, `fetch_scholar.py:90-102`, `add_previews.py:48-64`) and BeautifulSoup's parsing are not modelled. A page is a `PageFetch` value holding its meta tags in document order, and a download is a boolean outcome.
- Scholar API. The `scholarly` calls, the proxy set-up and `time.sleep` rate limiting (`fetch_scholar.py:41-61`, `:115-127`) are not modelled. A `Publication` carries what they returned: the `bib` and link fields, whether a BibTeX export succeeded, the thumbnail page outcome and the download outcome.
- BibTeX library. `bibtexparser.loads` and `BibTexWriter` are the `parse` and `write` parameters. Entries are maps from field names to strings, and no text round trip through them is claimed.
- CLI and file system. argparse, environment variables, `ensure_dirs`, `backup_bib` with its timestamped file name, the file reads and writes, and the log lines are not modelled.
- Clock. `time.time()` is the `now` parameter of `CitationKey.FallbackKey`.
- Text.Lower: only ASCII letters are lower-cased. Python's `str.lower` also maps other letters, for example U+212A KELVIN SIGN to `k` and U+0130 to `i` followed by U+0307. Those characters can reach a slug or an extension test in Python but not in the model.
- CitationKey.SearchKey: `\w` is taken as ASCII letters, digits and `_`. Python's `re` also accepts non-ASCII letters in an entry type.
- Text.ParseIntDigits: only ASCII digits are modelled. Python's `int` also accepts other Unicode decimal digits in a year.
- PreviewPath.ScholarPreviewPath: stated for keys without `/`. A key with `/` would make `ASSETS_DIR / f"{key}{ext}"` a nested path, and pathlib's normalisation of such paths is not modelled.
- YearSort.KnownYearsBeforeUnknown: stated for positive years only. Year 0 ties with unknown years, and negative years sort after them (see the note on `_sort_key` above).
- PreviewPath.PreviewsPreviewPath: stated for keys without `/`, for the same reason as ScholarPreviewPath. With `.jpg`, `.png` or `.gif` as the extension, `dest.name` of a slash-free key is `<key><ext>`; a key with `/` makes a nested path, and pathlib's normalisation of such paths is not modelled.
- Text.ParseInt: the limit of 4300 digits that `int` enforces by default (CPython 3.10.7 and later, adjustable at run time with `sys.set_int_max_str_digits`) is not modelled. A year with more digits parses in the model where Python raises ValueError.
- FetchScholar.AssignLastWins: two publications with the same key share one map slot, and the later saved preview wins. Both entries are still written, so both receive that preview.

## Findings

| source | as written | input that shows it | evidently intended | confidence | as-written member | corrected member |
|---|---|---|---|---|---|---|
| bin/fetch_scholar.py:195 | `bibtex.rstrip().rstrip('}')` removes every trailing `}`, the last field's closing brace included | an entry written compactly, such as `@misc{k, title = {T}}`: the injected text has `title = {T,` followed by the preview field | insert the preview field before the entry's own closing brace (comment at line 193), removing only that brace | not executed; the defect is proved for every compact entry, and the fallback entry and entries whose closing brace sits on its own line are unaffected | FetchScholar.CompactEntryLosesFieldBrace | FetchScholar.InjectPreviewCorrected |

The regeneration model (`FinalBlock` to `RegenerateBibliography`) keeps the injection as written, because it describes the file the script writes. `FetchScholar.InjectionsAgreeOnClosingLine` shows that the two injections agree on every entry whose closing brace is on a line of its own. The fallback entry is one of these.
