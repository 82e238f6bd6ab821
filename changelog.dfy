/**
 * The changelog section filter: a release body is cut into lines, and only the
 * lines of sections whose `## ` heading names one of the kept categories survive.
 */
module Changelog {
  import opened Text

  /** The category names whose sections are kept (`categoriesToKeep`). */
  const CategoriesToKeep: seq<string> := ["Customer Value", "Features"]

  /** A line that starts a section. */
  const HeadingPrefix: string := "## "

  predicate IsHeading(line: string) {
    StartsWith(line, HeadingPrefix)
  }

  /** The heading's title: the line without its leading `## `, trimmed. */
  function Title(line: string): string
    requires IsHeading(line)
  {
    Trim(line[|HeadingPrefix|..])
  }

  /** The title is what `replace("## ", "")` and `trim()` make of the heading: its first `## ` is the leading one. */
  lemma TitleIsReplace(line: string)
    requires IsHeading(line)
    ensures Title(line) == Trim(ReplaceFirst(line, HeadingPrefix, ""))
  {
    assert ReplaceFirst(line, HeadingPrefix, "") == line[|HeadingPrefix|..];
  }

  /** The title names a kept category, compared after lower-casing both. */
  predicate IsKeptTitle(title: string) {
    exists k :: 0 <= k < |CategoriesToKeep| && Contains(ToLower(title), ToLower(CategoriesToKeep[k]))
  }

  /** How the filter sees one line. */
  datatype LineKind = Body | KeptHeading | DroppedHeading

  /** A `## ` line is a heading; it is kept when its title names a kept category. */
  function KindOf(line: string): LineKind {
    if !IsHeading(line) then Body
    else if IsKeptTitle(Title(line)) then KeptHeading
    else DroppedHeading
  }

  /** The kind of each line, in order. */
  function Kinds(lines: seq<string>): (kinds: seq<LineKind>)
    ensures |kinds| == |lines|
  {
    if |lines| == 0 then [] else Kinds(lines[..|lines| - 1]) + [KindOf(lines[|lines| - 1])]
  }

  lemma {:induction false} KindsAt(lines: seq<string>, j: nat)
    requires j < |lines|
    ensures Kinds(lines)[j] == KindOf(lines[j])
  {
    if j < |lines| - 1 {
      KindsAt(lines[..|lines| - 1], j);
    }
  }

  /** `Kinds` is `KindOf` mapped over the lines. */
  lemma {:induction false} KindsIsMap(lines: seq<string>)
    ensures Kinds(lines) == Map(KindOf, lines)
  {
    if |lines| > 0 {
      KindsIsMap(lines[..|lines| - 1]);
    }
  }

  /**
   * Line `j` lies in a kept section: some kept heading stands at or before it
   * and no heading comes between that heading and line `j`.
   */
  predicate InKeptSection(kinds: seq<LineKind>, j: nat)
    requires j < |kinds|
  {
    exists h :: 0 <= h <= j && kinds[h] == KeptHeading && OnlyBodyAfter(kinds, h, j)
  }

  /** Every line after `h`, up to and including line `j`, is a body line. */
  predicate OnlyBodyAfter(kinds: seq<LineKind>, h: nat, j: nat)
    requires j < |kinds|
  {
    forall k :: h < k <= j ==> kinds[k] == Body
  }

  /** The lines among the first `n` that lie in a kept section, in their order. */
  function Selected<T>(lines: seq<T>, kinds: seq<LineKind>, n: nat): seq<T>
    requires n <= |lines| == |kinds|
  {
    if n == 0 then []
    else Selected(lines, kinds, n - 1) + (if InKeptSection(kinds, n - 1) then [lines[n - 1]] else [])
  }

  /**
   * What `filterCategoriesFromMarkdown` returns: the lines in kept sections,
   * joined by newlines, trimmed. The result never starts or ends with whitespace.
   */
  function Filtered(markdown: string): (r: string)
    ensures r == [] || (!IsWhitespace(r[0]) && !IsWhitespace(r[|r| - 1]))
  {
    var lines := Split(markdown, '\n');
    Trim(Join(Selected(lines, Kinds(lines), |lines|), "\n"))
  }

  /**
   * One step of the scan: a heading decides by its own kind whether it is in a
   * kept section; a body line is in one exactly when the line before it is.
   */
  lemma InKeptSectionStep(kinds: seq<LineKind>, j: nat)
    requires j < |kinds|
    ensures InKeptSection(kinds, j) <==>
              if kinds[j] == Body then j > 0 && InKeptSection(kinds, j - 1)
              else kinds[j] == KeptHeading
  {
    if InKeptSection(kinds, j) && kinds[j] == Body {
      var h :| 0 <= h <= j && kinds[h] == KeptHeading && OnlyBodyAfter(kinds, h, j);
      assert h < j;
      assert OnlyBodyAfter(kinds, h, j - 1);
    }
    if kinds[j] == Body && j > 0 && InKeptSection(kinds, j - 1) {
      var h :| 0 <= h <= j - 1 && kinds[h] == KeptHeading && OnlyBodyAfter(kinds, h, j - 1);
      assert OnlyBodyAfter(kinds, h, j);
    }
    if kinds[j] == KeptHeading {
      assert OnlyBodyAfter(kinds, j, j);
    }
  }

  /** `filterCategoriesFromMarkdown`: one pass over the lines with a single keep flag. */
  method FilterCategoriesFromMarkdown(markdown: string) returns (r: string)
    ensures r == Filtered(markdown)
  {
    var lines := Split(markdown, '\n');
    var relevantContent: seq<string> := [];
    var keepSection := false;
    for i := 0 to |lines|
      invariant relevantContent == Selected(lines, Kinds(lines), i)
      invariant keepSection == (i > 0 && InKeptSection(Kinds(lines), i - 1))
    {
      var line := lines[i];
      if StartsWith(line, HeadingPrefix) {
        var category := Trim(ReplaceFirst(line, HeadingPrefix, ""));
        TitleIsReplace(line);
        keepSection := IsKeptTitle(category);
      }
      KindsAt(lines, i);
      InKeptSectionStep(Kinds(lines), i);
      if keepSection {
        relevantContent := relevantContent + [line];
      }
    }
    r := Trim(Join(relevantContent, "\n"));
  }

  /** `a` is an in-order subsequence of `b`: `b` with some elements deleted. */
  predicate IsSubsequence<T(==)>(a: seq<T>, b: seq<T>)
    decreases |b|
  {
    if |a| == 0 then true
    else if |b| == 0 then false
    else (a[|a| - 1] == b[|b| - 1] && IsSubsequence(a[..|a| - 1], b[..|b| - 1]))
         || IsSubsequence(a, b[..|b| - 1])
  }

  /** Before the final join and trim, the kept lines are the input lines with some deleted, none rewritten. */
  lemma {:induction false} SelectedIsSubsequence<T>(lines: seq<T>, kinds: seq<LineKind>, n: nat)
    requires n <= |lines| == |kinds|
    ensures IsSubsequence(Selected(lines, kinds, n), lines[..n])
  {
    if n > 0 {
      var prev := Selected(lines, kinds, n - 1);
      SelectedIsSubsequence(lines, kinds, n - 1);
      assert lines[..n][..n - 1] == lines[..n - 1];
      if InKeptSection(kinds, n - 1) {
        assert (prev + [lines[n - 1]])[..|prev|] == prev;
      } else if |prev| > 0 {
        assert Selected(lines, kinds, n) == prev;
      }
    }
  }

  /** Before the first heading nothing is kept: a preamble is dropped. */
  lemma {:induction false} PreambleDropped<T>(lines: seq<T>, kinds: seq<LineKind>, n: nat)
    requires n <= |lines| == |kinds|
    requires forall k :: 0 <= k < n ==> kinds[k] == Body
    ensures Selected(lines, kinds, n) == []
  {
    if n > 0 {
      PreambleDropped(lines, kinds, n - 1);
      assert !InKeptSection(kinds, n - 1);
    }
  }

  /** A body without any `## ` line filters to the empty string. */
  lemma NoHeadingYieldsEmpty(markdown: string)
    requires forall k :: 0 <= k < |Split(markdown, '\n')| ==> !IsHeading(Split(markdown, '\n')[k])
    ensures Filtered(markdown) == ""
  {
    var lines := Split(markdown, '\n');
    forall k | 0 <= k < |lines| ensures Kinds(lines)[k] == Body {
      KindsAt(lines, k);
    }
    PreambleDropped(lines, Kinds(lines), |lines|);
  }

  /**
   * Between a heading and the next heading, every line is in a kept section
   * exactly when that heading is a kept one.
   */
  lemma SectionRule(kinds: seq<LineKind>, h: nat, j: nat)
    requires h <= j < |kinds|
    requires kinds[h] != Body
    requires OnlyBodyAfter(kinds, h, j)
    ensures InKeptSection(kinds, j) <==> kinds[h] == KeptHeading
  {
    if InKeptSection(kinds, j) {
      var h' :| 0 <= h' <= j && kinds[h'] == KeptHeading && OnlyBodyAfter(kinds, h', j);
      assert h' == h;
    }
  }

  /**
   * A section, from its heading `h` up to (not including) line `e`, which is the
   * next heading or the end: a kept heading is emitted with all of its
   * section's lines; a dropped heading and its section are left out entirely.
   */
  lemma {:induction false} SectionOutput<T>(lines: seq<T>, kinds: seq<LineKind>, h: nat, e: nat)
    requires h < e <= |lines| == |kinds|
    requires kinds[h] != Body
    requires forall k :: h < k < e ==> kinds[k] == Body
    ensures Selected(lines, kinds, e) ==
              Selected(lines, kinds, h) + (if kinds[h] == KeptHeading then lines[h..e] else [])
  {
    assert OnlyBodyAfter(kinds, h, e - 1);
    SectionRule(kinds, h, e - 1);
    if e > h + 1 {
      SectionOutput(lines, kinds, h, e - 1);
    } else {
      assert lines[h..h] == [];
    }
    SectionOutputStep(lines, kinds, h, e);
  }

  /** The step of `SectionOutput` to the section's line `e - 1`. */
  lemma SectionOutputStep<T>(lines: seq<T>, kinds: seq<LineKind>, h: nat, e: nat)
    requires h < e <= |lines| == |kinds|
    requires InKeptSection(kinds, e - 1) <==> kinds[h] == KeptHeading
    requires Selected(lines, kinds, e - 1) ==
               Selected(lines, kinds, h) + (if kinds[h] == KeptHeading then lines[h..e - 1] else [])
    ensures Selected(lines, kinds, e) ==
              Selected(lines, kinds, h) + (if kinds[h] == KeptHeading then lines[h..e] else [])
  {
    if kinds[h] == KeptHeading {
      assert lines[h..e] == lines[h..e - 1] + [lines[e - 1]];
    }
  }

  /**
   * Every section is kept: the first line is a kept heading and no line is a
   * heading of another category.
   */
  predicate AllSectionsKept(kinds: seq<LineKind>) {
    |kinds| >= 1 && kinds[0] == KeptHeading && forall k :: 0 <= k < |kinds| ==> kinds[k] != DroppedHeading
  }

  /** When every section is kept, every line is selected. */
  lemma {:induction false} AllKeptSelected<T>(lines: seq<T>, kinds: seq<LineKind>, n: nat)
    requires 0 < n <= |lines| == |kinds|
    requires kinds[0] == KeptHeading
    requires forall k :: 0 <= k < n ==> kinds[k] != DroppedHeading
    ensures Selected(lines, kinds, n) == lines[..n] && InKeptSection(kinds, n - 1)
  {
    InKeptSectionStep(kinds, n - 1);
    if n > 1 {
      AllKeptSelected(lines, kinds, n - 1);
      assert lines[..n] == lines[..n - 1] + [lines[n - 1]];
    }
  }

  /** A body that holds only kept sections, starting with its first heading, filters to itself, trimmed. */
  lemma KeptSectionsFilterToTrim(markdown: string)
    requires AllSectionsKept(Kinds(Split(markdown, '\n')))
    ensures Filtered(markdown) == Trim(markdown)
  {
    var lines := Split(markdown, '\n');
    AllKeptSelected(lines, Kinds(lines), |lines|);
    assert lines[..|lines|] == lines;
    JoinSplit(markdown, '\n');
  }

  /** The kinds of the selected lines: if there are any, every section among them is kept. */
  lemma {:induction false} SelectedSections(kinds: seq<LineKind>, n: nat)
    requires n <= |kinds|
    ensures var sel := Selected(kinds, kinds, n);
            && (n > 0 && InKeptSection(kinds, n - 1) ==> sel != [])
            && (sel != [] ==> AllSectionsKept(sel))
  {
    if n > 0 {
      SelectedSections(kinds, n - 1);
      InKeptSectionStep(kinds, n - 1);
    }
  }

  /** The kinds of the selected lines are the selected kinds. */
  lemma SelectedKinds(lines: seq<string>, n: nat)
    requires n <= |lines|
    ensures Kinds(Selected(lines, Kinds(lines), n)) == Selected(Kinds(lines), Kinds(lines), n)
  {
    KindsIsMap(lines);
    KindsIsMap(Selected(lines, Kinds(lines), n));
    SelectedMap(KindOf, lines, Kinds(lines), n);
  }

  /** Selecting commutes with mapping each line: the images of the selected lines are the selected images. */
  lemma {:induction false} SelectedMap<A, B>(f: A -> B, lines: seq<A>, kinds: seq<LineKind>, n: nat)
    requires n <= |lines| == |kinds|
    ensures Map(f, Selected(lines, kinds, n)) == Selected(Map(f, lines), kinds, n)
  {
    if n > 0 {
      SelectedMap(f, lines, kinds, n - 1);
      if InKeptSection(kinds, n - 1) {
        SelectedKeep(lines, kinds, n);
        SelectedKeep(Map(f, lines), kinds, n);
        MapSnoc(f, Selected(lines, kinds, n - 1), lines[n - 1]);
        MapAt(f, lines, n - 1);
      } else {
        SelectedSkip(lines, kinds, n);
        SelectedSkip(Map(f, lines), kinds, n);
      }
    }
  }

  /** A line in a kept section is appended. */
  lemma SelectedKeep<T>(lines: seq<T>, kinds: seq<LineKind>, n: nat)
    requires 0 < n <= |lines| == |kinds| && InKeptSection(kinds, n - 1)
    ensures Selected(lines, kinds, n) == Selected(lines, kinds, n - 1) + [lines[n - 1]]
  {
  }

  /** A line outside every kept section adds nothing. */
  lemma SelectedSkip<T>(lines: seq<T>, kinds: seq<LineKind>, n: nat)
    requires 0 < n <= |lines| == |kinds| && !InKeptSection(kinds, n - 1)
    ensures Selected(lines, kinds, n) == Selected(lines, kinds, n - 1)
  {
  }

  lemma KindsSnoc(lines: seq<string>, line: string)
    ensures Kinds(lines + [line]) == Kinds(lines) + [KindOf(line)]
  {
    assert (lines + [line])[..|lines|] == lines;
  }

  /** Selected lines are input lines, so they hold no newline when the input lines hold none. */
  lemma {:induction false} SelectedNoNewline<T>(lines: seq<seq<T>>, kinds: seq<LineKind>, n: nat, sep: T)
    requires n <= |lines| == |kinds|
    requires forall j :: 0 <= j < |lines| ==> sep !in lines[j]
    ensures forall k :: 0 <= k < |Selected(lines, kinds, n)| ==> sep !in Selected(lines, kinds, n)[k]
  {
    if n > 0 {
      SelectedNoNewline(lines, kinds, n - 1, sep);
    }
  }

  /** The selected lines of a split hold no newline, so joining them by newlines and splitting again gives them back. */
  lemma SelectedRejoins(markdown: string, kinds: seq<LineKind>)
    requires |kinds| == |Split(markdown, '\n')|
    ensures var lines := Split(markdown, '\n');
            var sel := Selected(lines, kinds, |lines|);
            sel != [] ==> Split(Join(sel, "\n"), '\n') == sel
  {
    var lines := Split(markdown, '\n');
    SplitPieces(markdown, '\n');
    SelectedNoNewline(lines, kinds, |lines|, '\n');
    var sel := Selected(lines, kinds, |lines|);
    if sel != [] {
      SplitJoin(sel, '\n');
    }
  }

  /** A whitespace character at the end of a line does not make it a heading or change its title. */
  lemma TitleSnocWhitespace(line: string, c: char)
    requires IsWhitespace(c) && |line| >= 3
    ensures IsHeading(line + [c]) <==> IsHeading(line)
    ensures IsHeading(line) ==> Title(line + [c]) == Title(line)
  {
    var l := line + [c];
    assert l[..3] == line[..3];
    if IsHeading(line) {
      assert l[3..] == line[3..] + [c];
      TrimSnocWhitespace(line[3..], c);
    }
  }

  /** A whitespace character at the end of a line that is not a dropped heading does not change its kind. */
  lemma KindSnocWhitespace(line: string, c: char)
    requires IsWhitespace(c) && KindOf(line + [c]) != DroppedHeading
    ensures KindOf(line) == KindOf(line + [c])
  {
    if |line| >= 3 {
      TitleSnocWhitespace(line, c);
    }
  }

  /** Taking the last kind off keeps every section kept, as long as one is left. */
  lemma KeptInit(kinds: seq<LineKind>, kind: LineKind)
    requires |kinds| >= 1 && AllSectionsKept(kinds + [kind])
    ensures AllSectionsKept(kinds)
  {
    assert forall k :: 0 <= k < |kinds| ==> kinds[k] == (kinds + [kind])[k];
  }

  /** When every section is kept, the last line is not a heading of another category. */
  lemma KeptLast(kinds: seq<LineKind>, kind: LineKind)
    requires AllSectionsKept(kinds + [kind])
    ensures kind != DroppedHeading
  {
    assert (kinds + [kind])[|kinds|] == kind;
  }

  /** Replacing the last line by one of the same kind changes no kind. */
  lemma KindsReplaceLast(lines: seq<string>, line: string)
    requires |lines| >= 1 && KindOf(lines[|lines| - 1]) == KindOf(line)
    ensures Kinds(lines[..|lines| - 1] + [line]) == Kinds(lines)
  {
    KindsSnoc(lines[..|lines| - 1], line);
  }

  /** Taking a whitespace character off the end keeps every section kept. */
  lemma DropTrailingWhitespace(s: string)
    requires |s| > 0 && IsWhitespace(s[|s| - 1]) && AllSectionsKept(Kinds(Split(s, '\n')))
    ensures AllSectionsKept(Kinds(Split(s[..|s| - 1], '\n')))
  {
    if s[|s| - 1] == '\n' {
      DropTrailingNewline(s);
    } else {
      DropTrailingBlank(s);
    }
  }

  /** A newline at the end only adds an empty last line. */
  lemma DropTrailingNewline(s: string)
    requires |s| > 0 && s[|s| - 1] == '\n' && AllSectionsKept(Kinds(Split(s, '\n')))
    ensures AllSectionsKept(Kinds(Split(s[..|s| - 1], '\n')))
  {
    SplitDropSeparator(s, '\n');
    DropEmptyLastLine(Split(s[..|s| - 1], '\n'));
  }

  lemma DropEmptyLastLine(parts: seq<string>)
    requires |parts| >= 1 && AllSectionsKept(Kinds(parts + [""]))
    ensures AllSectionsKept(Kinds(parts))
  {
    KindsSnoc(parts, "");
    KeptInit(Kinds(parts), KindOf(""));
  }

  /** Other whitespace at the end sits on the last line. */
  lemma DropTrailingBlank(s: string)
    requires |s| > 0 && IsWhitespace(s[|s| - 1]) && s[|s| - 1] != '\n' && AllSectionsKept(Kinds(Split(s, '\n')))
    ensures AllSectionsKept(Kinds(Split(s[..|s| - 1], '\n')))
  {
    SplitDropOther(s, '\n');
    DropWhitespaceFromLastLine(Split(s[..|s| - 1], '\n'), s[|s| - 1]);
  }

  /** A whitespace character other than a newline comes off the last line, whose kind it does not change. */
  lemma DropWhitespaceFromLastLine(parts: seq<string>, c: char)
    requires |parts| >= 1 && IsWhitespace(c)
    requires AllSectionsKept(Kinds(parts[..|parts| - 1] + [parts[|parts| - 1] + [c]]))
    ensures AllSectionsKept(Kinds(parts))
  {
    var m := |parts| - 1;
    var l := parts[..m] + [parts[m] + [c]];
    KindsSnoc(parts[..m], parts[m] + [c]);
    KeptLast(Kinds(parts[..m]), KindOf(parts[m] + [c]));
    KindSnocWhitespace(parts[m], c);
    KindsReplaceLast(parts, parts[m] + [c]);
  }

  /** `trimEnd` keeps every section kept. */
  lemma {:induction false} TrimEndKeepsSections(s: string)
    requires AllSectionsKept(Kinds(Split(s, '\n')))
    ensures AllSectionsKept(Kinds(Split(TrimEnd(s), '\n')))
    decreases |s|
  {
    if |s| > 0 && IsWhitespace(s[|s| - 1]) {
      DropTrailingWhitespace(s);
      TrimEndKeepsSections(s[..|s| - 1]);
    }
  }

  /** Joined and trimmed, lines whose sections are all kept and that split back into themselves filter to themselves. */
  lemma JoinedSectionsUnchanged(sel: seq<string>)
    requires AllSectionsKept(Kinds(sel))
    requires Split(Join(sel, "\n"), '\n') == sel
    ensures Filtered(Trim(Join(sel, "\n"))) == Trim(Join(sel, "\n"))
  {
    FirstIsHeading(sel);
    JoinedStartsWithHeading(sel);
    KeptTextUnchanged(Join(sel, "\n"));
  }

  /** Text with no leading whitespace whose sections are all kept filters, once trimmed, to itself. */
  lemma KeptTextUnchanged(s: string)
    requires TrimStart(s) == s
    requires AllSectionsKept(Kinds(Split(s, '\n')))
    ensures Filtered(Trim(s)) == Trim(s)
  {
    TrimEndKeepsSections(s);
    TrimIdempotent(s);
    KeptSectionsFilterToTrim(Trim(s));
  }

  /** Lines whose first one is a heading join to text that starts with `#`, so no leading whitespace is trimmed. */
  lemma JoinedStartsWithHeading(sel: seq<string>)
    requires |sel| >= 1 && IsHeading(sel[0])
    ensures TrimStart(Join(sel, "\n")) == Join(sel, "\n")
  {
    var j := Join(sel, "\n");
    JoinStartsWithFirst(sel, "\n");
    assert j[..|sel[0]|][..|HeadingPrefix|] == sel[0][..|HeadingPrefix|];
    assert j[0] == '#';
    TrimStartKeeps(j);
  }

  /** When every section is kept, the first line is a heading. */
  lemma FirstIsHeading(lines: seq<string>)
    requires AllSectionsKept(Kinds(lines))
    ensures IsHeading(lines[0])
  {
    KindsAt(lines, 0);
  }

  /** Filtering is idempotent: a filtered body filters to itself. */
  lemma FilteredIdempotent(markdown: string)
    ensures Filtered(Filtered(markdown)) == Filtered(markdown)
  {
    var lines := Split(markdown, '\n');
    var kinds := Kinds(lines);
    var sel := Selected(lines, kinds, |lines|);
    if sel == [] {
      NoHeadingYieldsEmpty("");
    } else {
      SelectedKinds(lines, |lines|);
      SelectedSections(kinds, |lines|);
      SelectedRejoins(markdown, kinds);
      JoinedSectionsUnchanged(sel);
    }
  }
}
