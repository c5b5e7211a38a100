/**
 * The code panel (components/molecules/AlgorithmCodeDisplay/index.tsx):
 * which listing is shown for the selected algorithm, how it is cut into
 * lines, which line is highlighted, the panel title and whether the
 * description block appears.
 *
 * The listings and descriptions are display text. The model takes them as
 * a table (`Texts`) and states what the source's table satisfies:
 * which algorithms have an entry and how many lines each listing has.
 */
module AlgorithmCodeDisplay {
  import opened Options

  /** The identifiers the visualisation knows; the panel has listings for all but strand. */
  datatype Algorithm =
    | Bubble | Selection | Insertion | Merge | Quick | Heap | Shell
    | Tree | Tim | Cocktail | Comb | Gnome | Strand

  /** The identifier as the string the page uses for it. */
  function Name(a: Algorithm): (name: string)
    ensures name != [] && forall i :: 0 <= i < |name| ==> 'a' <= name[i] <= 'z'
  {
    match a
    case Bubble => "bubble"
    case Selection => "selection"
    case Insertion => "insertion"
    case Merge => "merge"
    case Quick => "quick"
    case Heap => "heap"
    case Shell => "shell"
    case Tree => "tree"
    case Tim => "tim"
    case Cocktail => "cocktail"
    case Comb => "comb"
    case Gnome => "gnome"
    case Strand => "strand"
  }

  /** The `switch` of `getCode` has a case, and `descriptions` an entry, for these twelve. */
  predicate HasListing(a: Algorithm)
  {
    a != Strand
  }

  /** Number of lines of each trimmed listing. */
  function ListingLineCount(a: Algorithm): nat
    requires HasListing(a)
  {
    match a
    case Bubble => 19
    case Selection => 25
    case Insertion => 19
    case Merge => 29
    case Quick => 31
    case Heap => 40
    case Shell => 28
    case Tree => 50
    case Tim => 43
    case Cocktail => 46
    case Comb => 40
    case Gnome => 28
  }

  const Placeholder: string := "// Select an algorithm to view its code."

  /** The display text: one listing per algorithm and the description map. */
  datatype Texts = Texts(listing: Algorithm -> string, descriptions: map<Algorithm, string>)

  /** What the source's text table satisfies. */
  ghost predicate SourceTexts(t: Texts)
  {
    && (forall a :: HasListing(a) ==> |Lines(t.listing(a))| == ListingLineCount(a))
    && (forall a :: a in t.descriptions <==> HasListing(a))
    && (forall a :: a in t.descriptions ==> t.descriptions[a] != "")
  }

  /** The listing for the selected algorithm, or the placeholder. */
  function GetCode(t: Texts, algorithm: Option<Algorithm>): (code: string)
    ensures algorithm.Some? && HasListing(algorithm.value) ==> code == t.listing(algorithm.value)
    ensures algorithm.None? || algorithm.value == Strand ==> code == Placeholder
  {
    match algorithm
    case Some(a) => if HasListing(a) then t.listing(a) else Placeholder
    case None => Placeholder
  }

  // ---- code.split('\n') ----

  function NewlineCount(s: string): nat
  {
    if s == [] then 0 else (if s[0] == '\n' then 1 else 0) + NewlineCount(s[1..])
  }

  /**
   * The pieces between newlines, as `split('\n')` gives them: the empty
   * string gives one empty line, and a trailing newline an empty last line.
   */
  function Lines(s: string): (ls: seq<string>)
    ensures |ls| >= 1
  {
    if s == [] then [""]
    else
      var rest := Lines(s[1..]);
      if s[0] == '\n' then [""] + rest
      else [[s[0]] + rest[0]] + rest[1..]
  }

  /** Joins lines back with a newline between each two. */
  function JoinLines(ls: seq<string>): string
    requires |ls| >= 1
  {
    if |ls| == 1 then ls[0] else ls[0] + "\n" + JoinLines(ls[1..])
  }

  /** There is one more line than there are newlines. */
  lemma {:induction false} LineCountIsNewlinesPlusOne(s: string)
    ensures |Lines(s)| == NewlineCount(s) + 1
  {
    if s != [] {
      LineCountIsNewlinesPlusOne(s[1..]);
    }
  }

  /** No line contains a newline. */
  lemma {:induction false} LinesHaveNoNewline(s: string)
    ensures forall k :: 0 <= k < |Lines(s)| ==> '\n' !in Lines(s)[k]
  {
    if s != [] {
      LinesHaveNoNewline(s[1..]);
      var rest := Lines(s[1..]);
      if s[0] != '\n' {
        assert '\n' !in rest[0];
        assert Lines(s)[0] == [s[0]] + rest[0];
        forall k | 1 <= k < |Lines(s)|
          ensures '\n' !in Lines(s)[k]
        {
          assert Lines(s)[k] == rest[k];
        }
      }
    }
  }

  /** Splitting loses nothing: joining the lines gives the code back. */
  lemma {:induction false} JoinSplitRoundTrip(s: string)
    ensures JoinLines(Lines(s)) == s
  {
    if s != [] {
      JoinSplitRoundTrip(s[1..]);
      var rest := Lines(s[1..]);
      if s[0] == '\n' {
        assert Lines(s)[1..] == rest;
        assert JoinLines(Lines(s)) == "" + "\n" + JoinLines(rest);
      } else {
        var ls := Lines(s);
        assert ls[1..] == rest[1..];
        if |rest| == 1 {
          assert JoinLines(ls) == [s[0]] + rest[0];
        } else {
          assert JoinLines(ls) == [s[0]] + rest[0] + "\n" + JoinLines(rest[1..]);
          assert JoinLines(rest) == rest[0] + "\n" + JoinLines(rest[1..]);
        }
      }
    }
  }

  // ---- Rendering ----

  /** One rendered row of the listing. */
  datatype RenderedLine = RenderedLine(text: string, highlighted: bool)

  /**
   * A row shows `line || ' '` followed by the literal space that stands
   * between that expression and the comment after it; line numbers are 1-based.
   */
  function RenderLine(line: string, index: nat, currentLine: Option<int>): (r: RenderedLine)
    ensures |r.text| >= 2 && r.text[|r.text| - 1] == ' '
    ensures line != "" ==> r.text[..|r.text| - 1] == line
    ensures line == "" ==> r.text == "  "
    ensures r.highlighted <==> currentLine == Some(index + 1)
  {
    RenderedLine((if line == "" then " " else line) + " ", currentLine == Some(index + 1))
  }

  function Render(code: string, currentLine: Option<int>): (rows: seq<RenderedLine>)
    ensures |rows| == NewlineCount(code) + 1
  {
    LineCountIsNewlinesPlusOne(code);
    var ls := Lines(code);
    seq(|ls|, k requires 0 <= k < |ls| => RenderLine(ls[k], k, currentLine))
  }

  /**
   * Row `k` is highlighted exactly when `currentLine` is `k + 1`; so at most
   * one row is, and one is exactly when `currentLine` lies in 1..number of lines.
   */
  lemma HighlightIsCurrentLine(code: string, currentLine: Option<int>)
    ensures forall k :: 0 <= k < |Render(code, currentLine)| ==>
      (Render(code, currentLine)[k].highlighted <==> currentLine == Some(k + 1))
    ensures forall j, k :: 0 <= j < k < |Render(code, currentLine)| ==>
      !(Render(code, currentLine)[j].highlighted && Render(code, currentLine)[k].highlighted)
    ensures (exists k :: 0 <= k < |Render(code, currentLine)| && Render(code, currentLine)[k].highlighted) <==>
      (currentLine.Some? && 1 <= currentLine.value <= NewlineCount(code) + 1)
  {
    var rows := Render(code, currentLine);
    if currentLine.Some? && 1 <= currentLine.value <= NewlineCount(code) + 1 {
      assert rows[currentLine.value - 1].highlighted;
    }
  }

  /**
   * A row shows its line, or a single space for an empty line, followed by
   * one space; so no row is blank, and dropping that last space gives back
   * every non-empty line.
   */
  lemma RowsShowTheirLines(code: string, currentLine: Option<int>)
    ensures forall k :: 0 <= k < |Render(code, currentLine)| ==>
      Render(code, currentLine)[k].text == (if Lines(code)[k] == "" then " " else Lines(code)[k]) + " "
    ensures forall k :: 0 <= k < |Render(code, currentLine)| && Lines(code)[k] != "" ==>
      Render(code, currentLine)[k].text[..|Render(code, currentLine)[k].text| - 1] == Lines(code)[k]
  {
  }

  // ---- Title and description ----

  function ToUpper(c: char): char
  {
    if 'a' <= c <= 'z' then (c as int - 32) as char else c
  }

  function ToLower(c: char): char
  {
    if 'A' <= c <= 'Z' then (c as int + 32) as char else c
  }

  /** `s.charAt(0).toUpperCase() + s.slice(1)`, for ASCII letters. */
  function Capitalize(s: string): (r: string)
    ensures |r| == |s|
    ensures s != [] ==> r[1..] == s[1..]
  {
    if s == [] then [] else [ToUpper(s[0])] + s[1..]
  }

  function Title(algorithm: Option<Algorithm>): (t: string)
    ensures algorithm.Some? <==> |t| >= 10 && t[|t| - 10..] == " Sort Code"
    ensures algorithm.None? ==> t == "Algorithm Code"
  {
    match algorithm
    case Some(a) => Capitalize(Name(a)) + " Sort Code"
    case None => "Algorithm Code"
  }

  /**
   * A selected algorithm's title is its name with a capital first letter
   * followed by " Sort Code"; lower-casing that letter gives the name back.
   */
  lemma TitleNamesTheAlgorithm(a: Algorithm)
    ensures var t := Title(Some(a));
      && |t| == |Name(a)| + 10
      && t[|Name(a)|..] == " Sort Code"
      && 'A' <= t[0] <= 'Z'
      && [ToLower(t[0])] + t[1..|Name(a)|] == Name(a)
  {
    var n := Name(a);
    var t := Title(Some(a));
    assert t == [ToUpper(n[0])] + n[1..] + " Sort Code";
    assert t[1..|n|] == n[1..];
    assert [n[0]] + n[1..] == n;
  }

  /** `algorithm && descriptions[algorithm]`: a selected algorithm with a non-empty entry. */
  predicate ShowsDescription(t: Texts, algorithm: Option<Algorithm>): (shown: bool)
    ensures algorithm.None? ==> !shown
    ensures shown ==> algorithm.value in t.descriptions
  {
    algorithm.Some? && algorithm.value in t.descriptions && t.descriptions[algorithm.value] != ""
  }

  /**
   * With the source's texts the description block appears exactly when a
   * listing (not the placeholder) is chosen, and the listing has the
   * source's number of lines; the placeholder is a single line.
   */
  lemma PanelFollowsSelection(t: Texts, algorithm: Option<Algorithm>)
    requires SourceTexts(t)
    ensures ShowsDescription(t, algorithm) <==> algorithm.Some? && algorithm.value != Strand
    ensures algorithm.Some? && algorithm.value != Strand ==>
      |Lines(GetCode(t, algorithm))| == ListingLineCount(algorithm.value)
    ensures algorithm.None? || algorithm.value == Strand ==> Lines(GetCode(t, algorithm)) == [Placeholder]
  {
    if algorithm.None? || algorithm.value == Strand {
      assert '\n' !in Placeholder;
      NoNewlineIsOneLine(Placeholder);
    }
  }

  /** Code without a newline is a single line. */
  lemma {:induction false} NoNewlineIsOneLine(s: string)
    requires '\n' !in s
    ensures Lines(s) == [s]
  {
    if s != [] {
      assert s[0] in s;
      assert forall c :: c in s[1..] ==> c in s;
      NoNewlineIsOneLine(s[1..]);
      assert [s[0]] + s[1..] == s;
    }
  }
}
