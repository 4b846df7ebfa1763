/**
 * Where a downloaded thumbnail goes and what an entry's `preview` field
 * says. bin/fetch_scholar.py takes the extension from the URL path with
 * `os.path.splitext`; bin/add_previews.py looks for `.png` or `.gif`
 * anywhere in the URL. Both name the file `{key}{ext}` inside
 * `assets/img/pub_preview` and record the file's name (`dest.name`).
 */
module PreviewPath {
  import opened Text

  /** The site's image directory and, below it, `ASSETS_DIR`. */
  const ImageDir := "assets/img"
  const PreviewDirName := "pub_preview"
  const AssetsDir := ImageDir + "/" + PreviewDirName
  const DefaultExtension := ".jpg"

  /** `s.rfind(c)`: the index of the last `c`, or -1. */
  function LastIndexOf(s: string, c: char): (r: int)
    ensures -1 <= r < |s|
    ensures r >= 0 ==> s[r] == c
    ensures forall k :: r < k < |s| ==> s[k] != c
  {
    if s == [] then -1
    else if s[|s| - 1] == c then |s| - 1
    else LastIndexOf(s[..|s| - 1], c)
  }

  lemma {:induction false} LastIndexOfAt(s: string, c: char, i: int)
    requires -1 <= i < |s|
    requires i >= 0 ==> s[i] == c
    requires forall k :: i < k < |s| ==> s[k] != c
    ensures LastIndexOf(s, c) == i
    decreases |s|
  {
    if s != [] && i < |s| - 1 {
      LastIndexOfAt(s[..|s| - 1], c, i);
    }
  }

  /** Some character in `p[from..to]` is not a dot. */
  predicate HasNonDot(p: string, from: int, to: int)
    requires 0 <= from && to <= |p|
  {
    exists k :: from <= k < to && p[k] != '.'
  }

  /** `os.path.splitext(p)[1]` (POSIX): from the last dot of the last path
   *  component, unless that component is only dots up to that point. */
  function SplitExt(p: string): (ext: string)
    ensures ext == [] || (ext[0] == '.' && EndsWith(p, ext))
    ensures forall k :: 0 <= k < |ext| ==> ext[k] != '/'
    ensures forall k :: 1 <= k < |ext| ==> ext[k] != '.'
    ensures '.' !in p ==> ext == []
  {
    var sep := LastIndexOf(p, '/');
    var dot := LastIndexOf(p, '.');
    if dot > sep && HasNonDot(p, sep + 1, dot) then p[dot..] else []
  }

  /** `os.path.splitext(thumb_url.split("?")[0])[1] or ".jpg"` */
  function ScholarExtension(thumbUrl: string): (ext: string)
    ensures ext != [] && ext[0] == '.'
    ensures forall k :: 0 <= k < |ext| ==> ext[k] != '/' && ext[k] != '?'
    ensures ext == DefaultExtension || EndsWith(BeforeFirst(thumbUrl, '?'), ext)
  {
    var path := BeforeFirst(thumbUrl, '?');
    var ext := SplitExt(path);
    if ext != [] then
      assert forall k :: 0 <= k < |ext| ==> ext[k] == path[|path| - |ext| + k];
      ext
    else DefaultExtension
  }

  /** A query string never affects the extension. */
  lemma ScholarExtensionIgnoresQuery(url: string, query: string)
    requires '?' !in url
    ensures ScholarExtension(url + "?" + query) == ScholarExtension(url)
  {
    var s := url + "?" + query;
    assert forall k :: 0 <= k < |url| ==> s[k] == url[k];
    BeforeFirstAt(s, '?', |url|);
    BeforeFirstAt(url, '?', |url|);
    assert s[..|url|] == url[..|url|] == url;
  }

  /** Without a query string, the extension runs from the last dot of the
   *  last path component when that component does not start with a dot. */
  lemma ExtensionFromLastDot(url: string, sep: nat, dot: nat)
    requires sep < dot < |url| && url[sep] == '/' && url[sep + 1] != '.' && url[dot] == '.'
    requires forall k :: sep < k < |url| ==> url[k] != '/'
    requires forall k :: dot < k < |url| ==> url[k] != '.'
    requires forall k :: 0 <= k < |url| ==> url[k] != '?'
    ensures ScholarExtension(url) == url[dot..]
  {
    BeforeFirstAt(url, '?', |url|);
    assert BeforeFirst(url, '?') == url;
    LastIndexOfAt(url, '/', sep);
    LastIndexOfAt(url, '.', dot);
    assert HasNonDot(url, sep + 1, dot);
  }

  /** The last path component of `p` starts at `start`: right after the
   *  last slash, or at 0 when there is none. */
  predicate LastComponentAt(p: string, start: nat) {
    && start <= |p|
    && (start == 0 || p[start - 1] == '/')
    && forall k :: start <= k < |p| ==> p[k] != '/'
  }

  /** `splitext` on a path whose last component contains a dot: the
   *  extension runs from the last dot, unless only dots come before it in
   *  the component (`.hidden` has none, `.a.png` has `.png`). */
  lemma SplitExtOfDottedComponent(p: string, start: nat, dot: nat)
    requires LastComponentAt(p, start)
    requires start <= dot < |p| && p[dot] == '.'
    requires forall k :: dot < k < |p| ==> p[k] != '.'
    ensures (exists k :: start <= k < dot && p[k] != '.') ==> SplitExt(p) == p[dot..]
    ensures (forall k :: start <= k < dot ==> p[k] == '.') ==> SplitExt(p) == []
  {
    LastIndexOfAt(p, '/', start - 1);
    LastIndexOfAt(p, '.', dot);
  }

  /** `splitext` on a path whose last component has no dot: no extension,
   *  even when dots appear in earlier directories. */
  lemma SplitExtOfUndottedComponent(p: string, start: nat)
    requires LastComponentAt(p, start)
    requires forall k :: start <= k < |p| ==> p[k] != '.'
    ensures SplitExt(p) == []
  {
    LastIndexOfAt(p, '/', start - 1);
    assert LastIndexOf(p, '.') < start;
  }

  /** The extension fetch_scholar.py gives a thumbnail URL whose path (the
   *  part before the first `?`) ends in a dotted component: the text from
   *  the last dot, or `.jpg` when only dots precede it in the component. */
  lemma ScholarExtensionOfPath(url: string, path: string, start: nat, dot: nat)
    requires path == BeforeFirst(url, '?') && LastComponentAt(path, start)
    requires start <= dot < |path| && path[dot] == '.'
    requires forall k :: dot < k < |path| ==> path[k] != '.'
    ensures (exists k :: start <= k < dot && path[k] != '.') ==> ScholarExtension(url) == path[dot..]
    ensures (forall k :: start <= k < dot ==> path[k] == '.') ==> ScholarExtension(url) == DefaultExtension
  {
    SplitExtOfDottedComponent(path, start, dot);
  }

  /** A thumbnail URL whose last path component (before any `?`) has no dot
   *  is saved as `.jpg`. */
  lemma ScholarExtensionWithoutDot(url: string, path: string, start: nat)
    requires path == BeforeFirst(url, '?') && LastComponentAt(path, start)
    requires forall k :: start <= k < |path| ==> path[k] != '.'
    ensures ScholarExtension(url) == DefaultExtension
  {
    SplitExtOfUndottedComponent(path, start);
  }

  /** Where the slashes, dots and question marks of `front host.suffix` are. */
  lemma HostUrlChars(front: string, host: string, suffix: string, url: string)
    requires front != [] && front[|front| - 1] == '/'
    requires forall k :: 0 <= k < |front| ==> front[k] != '?'
    requires host != [] && host[0] != '.'
    requires forall k :: 0 <= k < |host| ==> host[k] != '/' && host[k] != '?'
    requires forall k :: 0 <= k < |suffix| ==> suffix[k] != '/' && suffix[k] != '?' && suffix[k] != '.'
    requires url == front + host + "." + suffix
    ensures url[|front| - 1] == '/' && url[|front|] != '.' && url[|front| + |host|] == '.'
    ensures forall k :: |front| - 1 < k < |url| ==> url[k] != '/'
    ensures forall k :: |front| + |host| < k < |url| ==> url[k] != '.'
    ensures forall k :: 0 <= k < |url| ==> url[k] != '?'
    ensures url[|front| + |host|..] == "." + suffix
  {
    var dot := |front| + |host|;
    forall k | 0 <= k < |url|
      ensures url[k] != '?'
      ensures |front| <= k ==> url[k] != '/'
      ensures dot < k ==> url[k] != '.'
    {
      if k < |front| { assert url[k] == front[k]; }
      else if k < dot { assert url[k] == host[k - |front|]; }
      else if k > dot { assert url[k] == suffix[k - dot - 1]; }
    }
  }

  /** A thumbnail URL with no path takes the last label of its host name as
   *  the extension: `https://example.com` gives `.com`. Here `front` is the
   *  scheme and its slashes, such as `https://`. */
  lemma HostSuffixIsExtension(front: string, host: string, suffix: string)
    requires front != [] && front[|front| - 1] == '/'
    requires forall k :: 0 <= k < |front| ==> front[k] != '?'
    requires host != [] && host[0] != '.'
    requires forall k :: 0 <= k < |host| ==> host[k] != '/' && host[k] != '?'
    requires forall k :: 0 <= k < |suffix| ==> suffix[k] != '/' && suffix[k] != '?' && suffix[k] != '.'
    ensures ScholarExtension(front + host + "." + suffix) == "." + suffix
  {
    var url := front + host + "." + suffix;
    HostUrlChars(front, host, suffix, url);
    ExtensionFromLastDot(url, |front| - 1, |front| + |host|);
  }

  /** `".png"`, `".gif"` or `".jpg"` by a substring test on the lower-cased
   *  URL, `.png` winning when both occur. */
  function PreviewExtension(thumbUrl: string): (ext: string)
    ensures ext == ".png" <==> Contains(Lower(thumbUrl), ".png")
    ensures ext == ".gif" <==> !Contains(Lower(thumbUrl), ".png") && Contains(Lower(thumbUrl), ".gif")
    ensures ext == DefaultExtension <==> !Contains(Lower(thumbUrl), ".png") && !Contains(Lower(thumbUrl), ".gif")
  {
    if Contains(Lower(thumbUrl), ".png") then ".png"
    else if Contains(Lower(thumbUrl), ".gif") then ".gif"
    else DefaultExtension
  }

  /** `dest.name`: the last component of the joined path. */
  function BaseName(path: string): (name: string)
    ensures EndsWith(path, name)
    ensures forall k :: 0 <= k < |name| ==> name[k] != '/'
    ensures (forall k :: 0 <= k < |path| ==> path[k] != '/') ==> name == path
  {
    path[LastIndexOf(path, '/') + 1..]
  }

  /** The name of `dir/name` is the name of `name`, whatever `dir` is. */
  lemma BaseNameUnderDir(dir: string, name: string)
    ensures BaseName(dir + "/" + name) == BaseName(name)
  {
    var p := dir + "/" + name;
    var i := LastIndexOf(name, '/');
    var j := |dir| + 1 + i;
    assert p[j] == '/' by {
      if i >= 0 { assert p[j] == name[i]; } else { assert p[|dir|] == '/'; }
    }
    forall k | j < k < |p| ensures p[k] != '/' {
      assert p[k] == name[k - |dir| - 1];
    }
    LastIndexOfAt(p, '/', j);
    assert p[j + 1..] == name[i + 1..];
  }

  /** `f"{ASSETS_DIR.as_posix()}/{dest.name}"` (bin/fetch_scholar.py). */
  function ScholarPreviewPath(key: string, ext: string): (path: string)
    ensures ((forall k :: 0 <= k < |key| ==> key[k] != '/') && (forall k :: 0 <= k < |ext| ==> ext[k] != '/'))
            ==> path == AssetsDir + "/" + key + ext
  {
    AssetsDir + "/" + BaseName(key + ext)
  }

  /** `f"pub_preview/{dest.name}"` (bin/add_previews.py). */
  function PreviewsPreviewPath(key: string, ext: string): (path: string)
    ensures ((forall k :: 0 <= k < |key| ==> key[k] != '/') && (forall k :: 0 <= k < |ext| ==> ext[k] != '/'))
            ==> path == PreviewDirName + "/" + key + ext
  {
    PreviewDirName + "/" + BaseName(key + ext)
  }
}
