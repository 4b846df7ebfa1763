/**
 * The Jekyll front matter of `_bibliography/papers.bib` in
 * bin/add_previews.py: when the first line is `---`, everything up to the
 * next `---` line is set aside before parsing and written back, followed
 * by a blank line, in front of the regenerated entries.
 */
module FrontMatter {
  import opened Wrappers
  import opened Text

  const Marker := "---"

  /** `line.strip() == "---"` */
  predicate IsMarker(line: string) {
    Strip(line) == Marker
  }

  /** `lines and lines[0].strip() == "---"` */
  predicate HasFrontMatter(lines: seq<string>) {
    lines != [] && IsMarker(lines[0])
  }

  predicate HasClosingMarker(lines: seq<string>) {
    exists i :: 1 <= i < |lines| && IsMarker(lines[i])
  }

  /** The index of the first marker at or after `i`, or `|lines|` when
   *  there is none. */
  function FindFrom(lines: seq<string>, i: nat): (r: nat)
    ensures r <= |lines| && (i <= |lines| ==> i <= r)
    decreases |lines| - i
  {
    if i >= |lines| then |lines|
    else if IsMarker(lines[i]) then i
    else FindFrom(lines, i + 1)
  }

  /** `end_idx`: the index of the closing marker, or 1 when there is none. */
  function ClosingIndex(lines: seq<string>): (e: nat)
    ensures 1 <= e && (e == 1 || e < |lines|)
  {
    var r := FindFrom(lines, 1);
    if r < |lines| then r else 1
  }

  /** The search from `i` stops at the first marker. */
  lemma {:induction false} FindFromIsFirstMarker(lines: seq<string>, i: nat)
    ensures FindFrom(lines, i) < |lines| ==> IsMarker(lines[FindFrom(lines, i)])
    ensures forall k :: i <= k < FindFrom(lines, i) ==> !IsMarker(lines[k])
    decreases |lines| - i
  {
    if i < |lines| && !IsMarker(lines[i]) {
      FindFromIsFirstMarker(lines, i + 1);
    }
  }

  /** The closing marker is the first marker after the opening line; with
   *  none, `end_idx` keeps its initial value 1. */
  lemma ClosingIndexIsFirstMarker(lines: seq<string>)
    ensures HasClosingMarker(lines) ==>
              ClosingIndex(lines) < |lines| && IsMarker(lines[ClosingIndex(lines)])
              && forall k :: 1 <= k < ClosingIndex(lines) ==> !IsMarker(lines[k])
    ensures !HasClosingMarker(lines) ==> ClosingIndex(lines) == 1
  {
    FindFromIsFirstMarker(lines, 1);
  }

  /** The search loop at add_previews.py:78-82. */
  method FindClosingMarker(lines: seq<string>) returns (endIdx: nat)
    ensures endIdx == ClosingIndex(lines)
  {
    endIdx := 1;
    var i := 1;
    while i < |lines|
      invariant 1 <= i && endIdx == 1
      invariant FindFrom(lines, i) == FindFrom(lines, 1)
      decreases |lines| - i
    {
      if IsMarker(lines[i]) {
        endIdx := i;
        return;
      }
      i := i + 1;
    }
  }

  /** The front matter lines written back, markers included. */
  function FrontLines(lines: seq<string>): seq<string> {
    Take(lines, ClosingIndex(lines) + 1)
  }

  /** `"\n".join(lines[end_idx + 1:])` */
  function BodyText(lines: seq<string>): string {
    Join("\n", Drop(lines, ClosingIndex(lines) + 1))
  }

  /** The text handed to the BibTeX parser. */
  function BibText(raw: string): string {
    if HasFrontMatter(SplitLines(raw)) then BodyText(SplitLines(raw)) else raw
  }

  /** The file written back: the front matter and a blank line, then the
   *  writer's output. */
  function RestoreLines(lines: seq<string>, out: string): string {
    if HasFrontMatter(lines) then Join("\n", FrontLines(lines)) + "\n\n" + out else out
  }

  function Restore(raw: string, out: string): string {
    RestoreLines(SplitLines(raw), out)
  }

  /** A file without front matter is parsed whole and written back as the
   *  writer produces it. */
  lemma NoFrontMatter(raw: string, out: string)
    requires !HasFrontMatter(SplitLines(raw))
    ensures BibText(raw) == raw && Restore(raw, out) == out
  {
  }

  /** With text after the closing marker, the front matter, one newline
   *  and the parsed text make up the original lines again. */
  lemma FrontAndBodyReassemble(lines: seq<string>)
    requires ClosingIndex(lines) + 1 < |lines|
    ensures Join("\n", FrontLines(lines)) + "\n" + BodyText(lines) == Join("\n", lines)
  {
    var n := ClosingIndex(lines) + 1;
    var front, body := lines[..n], lines[n..];
    assert FrontLines(lines) == front;
    assert Drop(lines, n) == body;
    JoinSplitAt("\n", lines, n);
  }

  /** Joining the two halves of a split with one more separator. */
  lemma JoinSplitAt(sep: string, lines: seq<string>, n: nat)
    requires 0 < n < |lines|
    ensures Join(sep, lines[..n]) + sep + Join(sep, lines[n..]) == Join(sep, lines)
  {
    assert lines == lines[..n] + lines[n..];
    JoinAppend(sep, lines[..n], lines[n..]);
  }

  lemma {:induction false} JoinLast(sep: string, parts: seq<string>)
    requires parts != []
    ensures EndsWith(Join(sep, parts), parts[|parts| - 1])
    decreases |parts|
  {
    if |parts| > 1 {
      JoinLast(sep, parts[1..]);
      var rest := Join(sep, parts[1..]);
      var whole := parts[0] + sep + rest;
      assert whole[|whole| - |rest|..] == rest;
    }
  }

  lemma {:induction false} JoinFirst(sep: string, parts: seq<string>)
    requires parts != []
    ensures StartsWith(Join(sep, parts), parts[0])
    decreases |parts|
  {
    if |parts| > 1 {
      var whole := parts[0] + sep + Join(sep, parts[1..]);
      assert whole[..|parts[0]|] == parts[0];
    }
  }

  lemma JoinPrefixBounds(lines: seq<string>, n: nat)
    requires 1 <= n <= |lines|
    ensures StartsWith(Join("\n", lines[..n]), lines[0])
    ensures EndsWith(Join("\n", lines[..n]), lines[n - 1])
  {
    var front := lines[..n];
    assert front[0] == lines[0] && front[|front| - 1] == lines[n - 1];
    JoinFirst("\n", front);
    JoinLast("\n", front);
  }

  /** Lines 74-85: split the file into lines and, when it opens with a
   *  marker, find the closing marker and keep only the text after it. */
  method SetAside(raw: string) returns (lines: seq<string>, endIdx: nat, bibText: string)
    ensures lines == SplitLines(raw)
    ensures HasFrontMatter(lines) ==> endIdx == ClosingIndex(lines)
    ensures bibText == BibText(raw)
  {
    lines := SplitLines(raw);
    endIdx := 1;
    bibText := raw;
    if HasFrontMatter(lines) {
      endIdx := FindClosingMarker(lines);
      bibText := Join("\n", Drop(lines, endIdx + 1));
      assert bibText == BodyText(lines);
    }
  }

  /** Lines 138-141: put the front matter back in front of the output. */
  method PutBack(lines: seq<string>, endIdx: nat, outText: string) returns (text: string)
    requires HasFrontMatter(lines) ==> endIdx == ClosingIndex(lines)
    ensures text == RestoreLines(lines, outText)
  {
    text := outText;
    if HasFrontMatter(lines) {
      var front := Take(lines, endIdx + 1);
      assert front == FrontLines(lines);
      text := Join("\n", front) + "\n\n" + text;
    }
  }

  /** The front matter written back starts with the opening marker line
   *  and, when there is a closing marker, ends with it. */
  lemma FrontKeepsMarkers(lines: seq<string>)
    requires lines != []
    ensures StartsWith(Join("\n", FrontLines(lines)), lines[0])
    ensures ClosingIndex(lines) < |lines| ==> EndsWith(Join("\n", FrontLines(lines)), lines[ClosingIndex(lines)])
  {
    var e := ClosingIndex(lines);
    if e < |lines| {
      JoinPrefixBounds(lines, e + 1);
    } else {
      JoinPrefixBounds(lines, |lines|);
    }
  }

  lemma StartsWithAppend(s: string, t: string, p: string)
    requires StartsWith(s, p)
    ensures StartsWith(s + t, p)
  {
    assert (s + t)[..|p|] == s[..|p|];
  }

  /** The file written back starts with the opening marker line and ends
   *  with a blank line and the writer's output. */
  lemma RestoreKeepsMarkers(lines: seq<string>, out: string)
    requires HasFrontMatter(lines)
    ensures StartsWith(RestoreLines(lines, out), lines[0])
    ensures EndsWith(RestoreLines(lines, out), "\n\n" + out)
  {
    FrontKeepsMarkers(lines);
    var f := Join("\n", FrontLines(lines));
    var tail := "\n\n" + out;
    assert RestoreLines(lines, out) == f + tail;
    StartsWithAppend(f, tail, lines[0]);
    assert (f + tail)[|f|..] == tail;
  }

  /** Without a closing marker `end_idx` stays 1: the line after the
   *  opening marker is left out of the parsed text and written back as
   *  part of the front matter. */
  lemma UnclosedFrontMatter(lines: seq<string>)
    requires !HasClosingMarker(lines)
    ensures BodyText(lines) == Join("\n", Drop(lines, 2))
    ensures FrontLines(lines) == Take(lines, 2)
  {
    ClosingIndexIsFirstMarker(lines);
  }

  lemma JoinThree(a: string, b: string, c: string)
    ensures Join("\n", [a, b, c]) == a + "\n" + (b + "\n" + c)
  {
    assert [a, b, c][1..] == [b, c];
    assert [b, c][1..] == [c];
    assert Join("\n", [c]) == c;
  }

  /** Lines opening with marker, a non-marker line and marker close at 2. */
  lemma ClosingAfterOneLine(lines: seq<string>)
    requires |lines| >= 3 && !IsMarker(lines[1]) && IsMarker(lines[2])
    ensures ClosingIndex(lines) == 2
  {
    assert FindFrom(lines, 2) == 2;
  }

  /** Lines `---`, `meta`, `---`, then the entries: the parser gets the
   *  entries and the three lines are written back in front of them. */
  lemma MetadataLines(lines: seq<string>, open: string, meta: string, close: string, rest: seq<string>, out: string)
    requires IsMarker(open) && !IsMarker(meta) && IsMarker(close)
    requires lines == [open, meta, close] + rest
    ensures HasFrontMatter(lines)
    ensures BodyText(lines) == Join("\n", rest)
    ensures RestoreLines(lines, out) == open + "\n" + (meta + "\n" + close) + "\n\n" + out
  {
    ClosingAfterOneLine(lines);
    assert FrontLines(lines) == [open, meta, close];
    assert Drop(lines, 3) == rest;
    JoinThree(open, meta, close);
  }

  /** A file whose lines are a marker, a metadata line, a marker and then
   *  the entries: the parser sees only the entries, and the three lines
   *  are written back unchanged, followed by a blank line. */
  lemma MetadataBlock(raw: string, open: string, meta: string, close: string, rest: seq<string>, out: string)
    requires IsMarker(open) && !IsMarker(meta) && IsMarker(close)
    requires SplitLines(raw) == [open, meta, close] + rest
    ensures BibText(raw) == Join("\n", rest)
    ensures Restore(raw, out) == open + "\n" + (meta + "\n" + close) + "\n\n" + out
  {
    MetadataLines(SplitLines(raw), open, meta, close, rest, out);
}
}
