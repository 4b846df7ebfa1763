/**
 * Citation keys (bin/fetch_scholar.py): `parse_bibtex_key`, which takes the
 * key out of `@type{key,...` with the pattern `@\w+\{([^,]+)` or builds one
 * from the title's slug and the year, and the minimal `@article` entry the
 * fetch loop builds when the service's own BibTeX export fails.
 */
module CitationKey {
  import opened Wrappers
  import opened Text
  import opened Slug

  /** `\w`, on ASCII: letters, digits and the underscore. */
  predicate IsWordChar(c: char) {
    ('a' <= c <= 'z') || ('A' <= c <= 'Z') || ('0' <= c <= '9') || c == '_'
  }

  /** The end of the run of `\w` characters that starts at `j`. */
  function WordRunEnd(s: string, j: nat): (e: nat)
    requires j <= |s|
    ensures j <= e <= |s|
    decreases |s| - j
  {
    if j < |s| && IsWordChar(s[j]) then WordRunEnd(s, j + 1) else j
  }

  /** The end of the run of `[^,]` characters that starts at `j`. */
  function NonCommaRunEnd(s: string, j: nat): (e: nat)
    requires j <= |s|
    ensures j <= e <= |s|
    ensures forall k :: j <= k < e ==> s[k] != ','
    ensures e < |s| ==> s[e] == ','
    decreases |s| - j
  {
    if j < |s| && s[j] != ',' then NonCommaRunEnd(s, j + 1) else j
  }

  /** The pattern `@\w+\{([^,]+)` matches starting at index `i`. The greedy
   *  `\w+` can only be followed by `{` at the end of the whole word run,
   *  since `{` is not a word character, so backtracking finds nothing else. */
  predicate MatchAt(s: string, i: nat) {
    && i < |s|
    && s[i] == '@'
    && var j := WordRunEnd(s, i + 1);
       j > i + 1 && j + 1 < |s| && s[j] == '{' && s[j + 1] != ','
  }

  /** Group 1 of the match at `i`: the longest comma-free run after the brace. */
  function KeyAt(s: string, i: nat): (key: string)
    requires MatchAt(s, i)
    ensures key != [] && ',' !in key
  {
    var j := WordRunEnd(s, i + 1);
    var e := NonCommaRunEnd(s, j + 1);
    var key := s[j + 1..e];
    assert forall k :: 0 <= k < |key| ==> key[k] != ',';
    key
  }

  /** `re.search(r"@\w+\{([^,]+)", s)` from index `from` on: the group of
   *  the leftmost match, or None. */
  function SearchKey(s: string, from: nat): (r: Option<string>)
    requires from <= |s|
    ensures r.Some? ==> r.value != [] && ',' !in r.value
    decreases |s| - from
  {
    if from == |s| then None
    else if MatchAt(s, from) then Some(KeyAt(s, from))
    else SearchKey(s, from + 1)
  }

  /** The search finds a match exactly when there is one. */
  lemma {:induction false} SearchKeyFinds(s: string, from: nat)
    requires from <= |s|
    ensures SearchKey(s, from).Some? <==> exists i :: from <= i < |s| && MatchAt(s, i)
    decreases |s| - from
  {
    if from < |s| && !MatchAt(s, from) {
      SearchKeyFinds(s, from + 1);
      assert SearchKey(s, from) == SearchKey(s, from + 1);
      if exists i :: from <= i < |s| && MatchAt(s, i) {
        var i :| from <= i < |s| && MatchAt(s, i);
        assert from + 1 <= i;
      }
    }
  }

  /** The search yields the group of the leftmost match. */
  lemma {:induction false} SearchKeyIsLeftmost(s: string, from: nat, i: nat)
    requires from <= i < |s| && MatchAt(s, i)
    requires forall k :: from <= k < i ==> !MatchAt(s, k)
    ensures SearchKey(s, from) == Some(KeyAt(s, i))
    decreases i - from
  {
    if from < i {
      assert !MatchAt(s, from);
      SearchKeyIsLeftmost(s, from + 1, i);
    }
  }

  /** `parse_bibtex_key(bibtex, fallback_title, fallback_year)`, a falsy
   *  year (None or "") being "". */
  function ParseBibtexKey(bibtex: string, title: string, year: string): (key: string)
    ensures forall i :: 0 <= i < |bibtex| && MatchAt(bibtex, i) && (forall k :: 0 <= k < i ==> !MatchAt(bibtex, k))
              ==> key == KeyAt(bibtex, i)
    ensures (forall i :: 0 <= i < |bibtex| ==> !MatchAt(bibtex, i))
              ==> key == Slugify(title) + (if year == "" then "" else "-" + year)
  {
    SearchKeyFinds(bibtex, 0);
    assert forall i :: 0 <= i < |bibtex| && MatchAt(bibtex, i) && (forall k :: 0 <= k < i ==> !MatchAt(bibtex, k))
             ==> SearchKey(bibtex, 0) == Some(KeyAt(bibtex, i)) by {
      forall i | 0 <= i < |bibtex| && MatchAt(bibtex, i) && (forall k :: 0 <= k < i ==> !MatchAt(bibtex, k))
        ensures SearchKey(bibtex, 0) == Some(KeyAt(bibtex, i))
      {
        SearchKeyIsLeftmost(bibtex, 0, i);
      }
    }
    match SearchKey(bibtex, 0)
    case Some(k) => k
    case None => Slugify(title) + (if year == "" then "" else "-" + year)
  }

  /** The worked example: no entry text to match, so the key is synthesised. */
  lemma SynthesizedKeyExample(bibtex: string, title: string, year: string)
    requires '@' !in bibtex
    requires title == "A Study: Of  THINGS!!" && year == "2021"
    ensures ParseBibtexKey(bibtex, title, year) == "a-study-of-things-2021"
  {
    NoMatchWithoutAt(bibtex);
    SlugifyExample(title, "a-study-of-things");
    assert "a-study-of-things" + ("-" + year) == "a-study-of-things-2021";
  }

  lemma NoMatchWithoutAt(s: string)
    requires '@' !in s
    ensures forall i :: 0 <= i < |s| ==> !MatchAt(s, i)
  {
    forall i | 0 <= i < |s| ensures !MatchAt(s, i) {
      assert s[i] in s;
    }
  }

  /** One `name = {value}` field of an entry. */
  datatype Field = Field(name: string, value: string)

  predicate HasField(fields: seq<Field>, name: string) {
    exists i :: 0 <= i < |fields| && fields[i].name == name
  }

  const FallbackEntryType := "article"

  /** The key of the minimal entry: the slug of `title-year`, or
   *  `key<now>` when that slug is empty (`now` is the clock in seconds). */
  function FallbackKey(title: string, year: string, now: nat): (key: string)
    ensures key != [] && ',' !in key
    ensures Slugify(title + "-" + year) != [] ==> key == Slugify(title + "-" + year)
    ensures Slugify(title + "-" + year) == [] ==> key == "key" + NatToString(now)
  {
    var slug := Slugify(title + "-" + year);
    if slug != [] then
      assert forall k :: 0 <= k < |slug| ==> slug[k] != ',';
      slug
    else
      var digits := NatToString(now);
      assert forall k :: 0 <= k < |digits| ==> digits[k] != ',';
      "key" + digits
  }

  /** The fields of the minimal entry, in order: author, title, year, journal. */
  function FallbackFields(authors: string, title: string, year: string, venue: string): (fields: seq<Field>)
    ensures HasField(fields, "title")
    ensures HasField(fields, "author") <==> authors != ""
    ensures HasField(fields, "year") <==> year != ""
    ensures HasField(fields, "journal") <==> venue != ""
    ensures forall i :: 0 <= i < |fields| ==>
              fields[i] == Field("author", authors) || fields[i] == Field("title", title)
              || fields[i] == Field("year", year) || fields[i] == Field("journal", venue)
  {
    var a := OptionalField("author", authors);
    var t := [Field("title", title)];
    assert t[0].name == "title";
    var y := OptionalField("year", year);
    var v := OptionalField("journal", venue);
    HasFieldOfFour(a, t, y, v, "author");
    HasFieldOfFour(a, t, y, v, "title");
    HasFieldOfFour(a, t, y, v, "year");
    HasFieldOfFour(a, t, y, v, "journal");
    a + t + y + v
  }

  /** `if value: fields.append(f"  {name} = {{{value}}}")` */
  function OptionalField(name: string, value: string): (fields: seq<Field>)
    ensures |fields| <= 1
    ensures forall i :: 0 <= i < |fields| ==> fields[i] == Field(name, value)
    ensures HasField(fields, name) <==> value != ""
    ensures forall other :: other != name ==> !HasField(fields, other)
  {
    if value != "" then
      assert [Field(name, value)][0].name == name;
      [Field(name, value)]
    else []
  }

  /** A field occurs in four concatenated parts when it occurs in one of them. */
  lemma HasFieldOfFour(a: seq<Field>, b: seq<Field>, c: seq<Field>, d: seq<Field>, name: string)
    ensures HasField(a + b + c + d, name)
            <==> HasField(a, name) || HasField(b, name) || HasField(c, name) || HasField(d, name)
  {
    var f := a + b + c + d;
    if HasField(f, name) {
      var i :| 0 <= i < |f| && f[i].name == name;
      if i < |a| {
        assert a[i] == f[i];
      } else if i < |a| + |b| {
        assert b[i - |a|] == f[i];
      } else if i < |a| + |b| + |c| {
        assert c[i - |a| - |b|] == f[i];
      } else {
        assert d[i - |a| - |b| - |c|] == f[i];
      }
    }
    if HasField(a, name) {
      var i :| 0 <= i < |a| && a[i].name == name;
      assert f[i] == a[i];
    }
    if HasField(b, name) {
      var i :| 0 <= i < |b| && b[i].name == name;
      assert f[|a| + i] == b[i];
    }
    if HasField(c, name) {
      var i :| 0 <= i < |c| && c[i].name == name;
      assert f[|a| + |b| + i] == c[i];
    }
    if HasField(d, name) {
      var i :| 0 <= i < |d| && d[i].name == name;
      assert f[|a| + |b| + |c| + i] == d[i];
    }
  }

  function FieldLine(f: Field): string {
    "  " + f.name + " = {" + f.value + "}"
  }

  function FieldLines(fields: seq<Field>): (lines: seq<string>)
    ensures |lines| == |fields|
  {
    if fields == [] then [] else [FieldLine(fields[0])] + FieldLines(fields[1..])
  }

  /** `f"@{entry_type}{{{key},\n" + ",\n".join(fields) + "\n}"`: the entry
   *  opens with its type and key on the first line and closes with a brace
   *  on a line of its own. */
  function RenderEntry(entryType: string, key: string, fields: seq<Field>): (entry: string)
    ensures StartsWith(entry, "@" + entryType + "{" + key + ",\n")
    ensures EndsWith(entry, "\n}")
  {
    var head := "@" + entryType + "{" + key + ",\n";
    var body := Join(",\n", FieldLines(fields));
    assert (head + body + "\n}")[..|head|] == head;
    head + body + "\n}"
  }

  /** The minimal entry the fetch loop builds when the BibTeX export fails. */
  function FallbackBibtex(title: string, year: string, authors: string, venue: string, now: nat): (bibtex: string)
    ensures StartsWith(bibtex, "@" + FallbackEntryType + "{" + FallbackKey(title, year, now) + ",\n")
    ensures EndsWith(bibtex, "\n}")
  {
    RenderEntry(FallbackEntryType, FallbackKey(title, year, now), FallbackFields(authors, title, year, venue))
  }

  lemma {:induction false} WordRunEndAt(s: string, j: nat, e: nat)
    requires j <= e < |s|
    requires forall k :: j <= k < e ==> IsWordChar(s[k])
    requires !IsWordChar(s[e])
    ensures WordRunEnd(s, j) == e
    decreases e - j
  {
    if j < e {
      WordRunEndAt(s, j + 1, e);
    }
  }

  lemma {:induction false} NonCommaRunEndAt(s: string, j: nat, e: nat)
    requires j <= e < |s|
    requires forall k :: j <= k < e ==> s[k] != ','
    requires s[e] == ','
    ensures NonCommaRunEnd(s, j) == e
    decreases e - j
  {
    if j < e {
      NonCommaRunEndAt(s, j + 1, e);
    }
  }

  /** Any text that starts `@<word>{<key>,` with a non-empty comma-free key
   *  yields that key. */
  lemma KeyOfEntryHead(s: string, entryType: string, key: string)
    requires entryType != [] && forall k :: 0 <= k < |entryType| ==> IsWordChar(entryType[k])
    requires key != [] && ',' !in key
    requires StartsWith(s, "@" + entryType + "{" + key + ",")
    ensures MatchAt(s, 0) && KeyAt(s, 0) == key
    ensures forall title, year :: ParseBibtexKey(s, title, year) == key
  {
    var p := "@" + entryType + "{" + key + ",";
    var j := |entryType| + 1;
    assert forall k :: 0 <= k < |p| ==> s[k] == p[k];
    assert forall k :: 1 <= k < j ==> s[k] == entryType[k - 1];
    WordRunEndAt(s, 1, j);
    assert forall k :: j + 1 <= k < j + 1 + |key| ==> s[k] == key[k - j - 1];
    assert s[j + 1] == key[0];
    assert forall k :: j + 1 <= k < j + 1 + |key| ==> s[k] != ',' by {
      forall k | j + 1 <= k < j + 1 + |key| ensures s[k] != ',' {
        assert key[k - j - 1] in key;
      }
    }
    NonCommaRunEndAt(s, j + 1, j + 1 + |key|);
    assert s[j + 1..j + 1 + |key|] == key;
  }

  /** An entry rendered with a word-character type and a non-empty
   *  comma-free key gives that key back to `parse_bibtex_key`, whatever its
   *  fields, title and year. */
  lemma RenderedKeyRecovered(entryType: string, key: string, fields: seq<Field>, title: string, year: string)
    requires entryType != [] && forall k :: 0 <= k < |entryType| ==> IsWordChar(entryType[k])
    requires key != [] && ',' !in key
    ensures ParseBibtexKey(RenderEntry(entryType, key, fields), title, year) == key
  {
    var s := RenderEntry(entryType, key, fields);
    var p := "@" + entryType + "{" + key + ",";
    assert "@" + entryType + "{" + key + ",\n" == p + "\n";
    StartsWithShorter(s, p, "\n");
    KeyOfEntryHead(s, entryType, key);
  }

  /** The minimal entry's key is recovered by `parse_bibtex_key`. */
  lemma FallbackKeyRecovered(title: string, year: string, authors: string, venue: string, now: nat)
    ensures ParseBibtexKey(FallbackBibtex(title, year, authors, venue, now), title, year)
            == FallbackKey(title, year, now)
  {
    var t := FallbackEntryType;
    assert forall k :: 0 <= k < |t| ==> IsWordChar(t[k]);
    RenderedKeyRecovered(t, FallbackKey(title, year, now), FallbackFields(authors, title, year, venue), title, year);
  }
}
