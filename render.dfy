/**
 * The section renderer: titles for section keys, the paragraph and bullet-list
 * formatting of section bodies and of raw responses, and the markup of the
 * structured and the raw result views.
 *
 * The markup is that of the source's template literals without their
 * indentation whitespace between tags.
 */
module Render {
  import opened Wrappers
  import opened Text
  import opened ResponseParser

  // ---------------------------------------------------------------------------
  // Section titles

  /** The title table of `getSectionTitle`. */
  const Titles: map<string, string> := map[
    "executive_summary" := "Executive Summary",
    "key_performance_indicators" := "Key Performance Indicators",
    "market_trends" := "Market Trends",
    "ai_developments" := "AI Developments",
    "future_outlook" := "Future Outlook",
    "risks_and_challenges" := "Risks and Challenges",
    "conclusion" := "Conclusion"
  ]

  /** `key.replace(/_/g, ' ')`. */
  function UnderscoresToSpaces(key: string): (u: string)
    ensures |u| == |key|
    ensures forall i :: 0 <= i < |key| ==> u[i] == if key[i] == '_' then ' ' else key[i]
  {
    seq(|key|, i requires 0 <= i < |key| => if key[i] == '_' then ' ' else key[i])
  }

  /** `u.replace(/\b\w/g, l => l.toUpperCase())`. */
  function CapitalizeWords(u: string): (r: string)
    ensures |r| == |u|
  {
    seq(|u|, i requires 0 <= i < |u| =>
      if IsWordChar(u[i]) && (i == 0 || !IsWordChar(u[i - 1])) then UpperChar(u[i]) else u[i])
  }

  /**
   * Character `i` of a key begins a word of its title: a word character other
   * than `_`, at the start or after `_` or a non-word character.
   */
  predicate StartsTitleWord(key: string, i: nat)
    requires i < |key|
  {
    key[i] != '_' && IsWordChar(key[i]) && (i == 0 || key[i - 1] == '_' || !IsWordChar(key[i - 1]))
  }

  /**
   * The title of a key outside the table: underscores become spaces and the
   * first letter of each word is upper-cased; it never contains `_`.
   */
  function FallbackTitle(key: string): (title: string)
    ensures |title| == |key|
    ensures forall i :: 0 <= i < |key| ==>
              title[i] == (if key[i] == '_' then ' ' else if StartsTitleWord(key, i) then UpperChar(key[i]) else key[i])
    ensures '_' !in title
  {
    var u := UnderscoresToSpaces(key);
    var r := CapitalizeWords(u);
    assert forall i :: 0 <= i < |key| ==>
             r[i] == (if IsWordChar(u[i]) && (i == 0 || !IsWordChar(u[i - 1])) then UpperChar(u[i]) else u[i]);
    r
  }

  /** No table title contains an underscore. */
  lemma TableTitleClean(key: string)
    requires key in Titles
    ensures '_' !in Titles[key]
  {
    if key == "executive_summary" {
    } else if key == "key_performance_indicators" {
    } else if key == "market_trends" {
    } else if key == "ai_developments" {
    } else if key == "future_outlook" {
    } else if key == "risks_and_challenges" {
    } else {
      assert key == "conclusion";
    }
  }

  /**
   * `getSectionTitle`: the table title of a known key, the fallback title of
   * any other; no title contains an underscore.
   */
  function GetSectionTitle(key: string): (title: string)
    ensures key in Titles ==> title == Titles[key]
    ensures key !in Titles ==> title == FallbackTitle(key) && |title| == |key|
    ensures '_' !in title
  {
    if key in Titles then
      TableTitleClean(key);
      Titles[key]
    else
      FallbackTitle(key)
  }

  // ---------------------------------------------------------------------------
  // Paragraphs

  const BlankLine: string := "\n\n"

  /** `.map(p => p.trim()).filter(p => p.length > 0)`. */
  function NonBlankTrimmed(pieces: seq<string>): (ps: seq<string>)
    ensures |ps| <= |pieces|
    ensures forall i :: 0 <= i < |ps| ==> ps[i] != [] && IsTrimmed(ps[i])
  {
    if pieces == [] then []
    else
      var head := Trim(pieces[0]);
      (if head == [] then [] else [head]) + NonBlankTrimmed(pieces[1..])
  }

  /** Nothing is left exactly when every piece trims to nothing. */
  lemma {:induction false} NonBlankTrimmedEmpty(pieces: seq<string>)
    ensures NonBlankTrimmed(pieces) == [] <==> forall i :: 0 <= i < |pieces| ==> Trim(pieces[i]) == []
  {
    if pieces != [] {
      var rest := pieces[1..];
      NonBlankTrimmedEmpty(rest);
      NonBlankTrimmedUnfold(pieces);
      if Trim(pieces[0]) == [] {
        assert NonBlankTrimmed(pieces) == NonBlankTrimmed(rest);
        if forall i :: 0 <= i < |rest| ==> Trim(rest[i]) == [] {
          forall i | 0 <= i < |pieces| ensures Trim(pieces[i]) == [] {
            if i > 0 {
              assert Trim(rest[i - 1]) == [];
            }
          }
        }
        if forall i :: 0 <= i < |pieces| ==> Trim(pieces[i]) == [] {
          forall i | 0 <= i < |rest| ensures Trim(rest[i]) == [] {
            assert Trim(pieces[i + 1]) == [];
          }
        }
      } else {
        assert NonBlankTrimmed(pieces)[0] == Trim(pieces[0]);
      }
    }
  }

  lemma {:induction false} NonBlankTrimmedAbsence(pieces: seq<string>, p: string)
    requires forall i :: 0 <= i < |pieces| ==> !Contains(pieces[i], p)
    ensures forall i :: 0 <= i < |NonBlankTrimmed(pieces)| ==> !Contains(NonBlankTrimmed(pieces)[i], p)
  {
    if pieces != [] {
      TrimKeepsAbsence(pieces[0], p);
      assert forall i :: 1 <= i < |pieces| ==> pieces[i] == pieces[1..][i - 1];
      NonBlankTrimmedAbsence(pieces[1..], p);
    }
  }

  lemma NonBlankTrimmedCons(piece: string, pieces: seq<string>)
    ensures NonBlankTrimmed([piece] + pieces) == NonBlankTrimmed([piece]) + NonBlankTrimmed(pieces)
  {
    var all := [piece] + pieces;
    assert all[0] == piece && all[1..] == pieces;
    NonBlankTrimmedUnfold(all);
    assert [piece][0] == piece && [piece][1..] == [];
    NonBlankTrimmedUnfold([piece]);
    var h := if Trim(piece) == [] then [] else [Trim(piece)];
    assert NonBlankTrimmed([piece]) == h + [] == h;
  }

  lemma NonBlankTrimmedUnfold(pieces: seq<string>)
    requires pieces != []
    ensures NonBlankTrimmed(pieces) ==
            (if Trim(pieces[0]) == [] then [] else [Trim(pieces[0])]) + NonBlankTrimmed(pieces[1..])
  {
  }

  /**
   * The paragraphs of a text: its `"\n\n"`-separated pieces, trimmed, blank
   * ones dropped. There are none exactly when the text is all whitespace.
   */
  function Paragraphs(text: string): (ps: seq<string>)
    ensures forall i :: 0 <= i < |ps| ==> ps[i] != [] && IsTrimmed(ps[i])
    ensures forall i :: 0 <= i < |ps| ==> !Contains(ps[i], BlankLine)
    ensures ps == [] <==> AllSpace(text)
  {
    var pieces := Split(text, BlankLine);
    NonBlankTrimmedAbsence(pieces, BlankLine);
    NonBlankTrimmedEmpty(pieces);
    JoinAllSpace(pieces, BlankLine);
    NonBlankTrimmed(pieces)
  }

  /** A pattern absent from a text is absent from each of its paragraphs. */
  lemma ParagraphsAbsence(text: string, p: string)
    requires !Contains(text, p)
    ensures forall i :: 0 <= i < |Paragraphs(text)| ==> !Contains(Paragraphs(text)[i], p)
  {
    var pieces := Split(text, BlankLine);
    JoinPartsAbsence(pieces, BlankLine, p);
    NonBlankTrimmedAbsence(pieces, p);
  }

  /**
   * A first piece with no blank line in it, and not ending in a newline,
   * is split off at the blank line that follows it.
   */
  lemma SplitAtBlankLine(a: string, b: string)
    requires !Contains(a, BlankLine) && (a == [] || a[|a| - 1] != '\n')
    ensures Split(a + BlankLine + b, BlankLine) == [a] + Split(b, BlankLine)
  {
    var s := a + BlankLine + b;
    forall k | 0 <= k < |a| ensures !OccursAt(s, BlankLine, k) {
      NoBlankLineInside(a, b, k);
    }
    assert OccursAt(s, BlankLine, |a|) by {
      assert s[|a|..|a| + 2] == BlankLine;
    }
    FirstOccurrence(s, BlankLine, |a|);
    assert s[..|a|] == a;
    assert s[|a| + 2..] == b;
  }

  /** No blank line of `a + BlankLine + b` starts inside `a`. */
  lemma NoBlankLineInside(a: string, b: string, k: nat)
    requires !Contains(a, BlankLine) && (a == [] || a[|a| - 1] != '\n')
    requires k < |a|
    ensures !OccursAt(a + BlankLine + b, BlankLine, k)
  {
    var s := a + BlankLine + b;
    if k + 2 <= |a| {
      assert s[k..k + 2] == a[k..k + 2];
      ContainsIff(a, BlankLine);
      assert !OccursAt(a, BlankLine, k);
    } else if k + 2 <= |s| {
      assert s[k] == a[|a| - 1] != '\n';
      assert s[k..k + 2][0] == s[k] && BlankLine[0] == '\n';
    }
  }

  lemma ParagraphsAtBlankLine(a: string, b: string)
    requires !Contains(a, BlankLine) && (a == [] || a[|a| - 1] != '\n')
    ensures Paragraphs(a + BlankLine + b) == Paragraphs(a) + Paragraphs(b)
  {
    SplitAtBlankLine(a, b);
    SplitNoSeparator(a, BlankLine);
    NonBlankTrimmedCons(a, Split(b, BlankLine));
  }

  // ---------------------------------------------------------------------------
  // Blocks

  /** One formatted block: a plain paragraph, or an intro line followed by a bullet list. */
  datatype Block = Paragraph(text: string) | BulletList(intro: string, items: seq<string>)

  /** A line whose trimmed form starts with a bullet marker `-` or `*`. */
  predicate IsMarkerLine(line: string) {
    var t := Trim(line);
    t != [] && (t[0] == '-' || t[0] == '*')
  }

  /** `line.trim().substring(1).trim()`: a marker line without its marker, trimmed. */
  function ItemText(line: string): (item: string)
    requires IsMarkerLine(line)
    ensures IsTrimmed(item)
  {
    Trim(Trim(line)[1..])
  }

  /**
   * `.filter(l => l.trim().startsWith('-') || l.trim().startsWith('*'))
   *  .map(l => l.trim().substring(1).trim())`: one item per marker line, in
   * order; no item exactly when there is no marker line.
   */
  function ListItems(lines: seq<string>): (items: seq<string>)
    ensures |items| <= |lines|
    ensures items == [] <==> forall i :: 0 <= i < |lines| ==> !IsMarkerLine(lines[i])
  {
    if lines == [] then []
    else
      var rest := ListItems(lines[1..]);
      if IsMarkerLine(lines[0]) then
        [ItemText(lines[0])] + rest
      else
        assert forall i :: 1 <= i < |lines| ==> IsMarkerLine(lines[i]) == IsMarkerLine(lines[1..][i - 1]);
        rest
  }

  lemma ListItemsUnfold(lines: seq<string>)
    requires lines != []
    ensures ListItems(lines) ==
            (if IsMarkerLine(lines[0]) then [ItemText(lines[0])] else []) + ListItems(lines[1..])
  {
    if !IsMarkerLine(lines[0]) {
      assert [] + ListItems(lines[1..]) == ListItems(lines[1..]);
    }
  }

  /** Every list item is trimmed: no whitespace at either end. */
  lemma {:induction false} ListItemsTrimmed(lines: seq<string>)
    ensures forall i :: 0 <= i < |ListItems(lines)| ==> IsTrimmed(ListItems(lines)[i])
  {
    if lines != [] {
      var rest := ListItems(lines[1..]);
      ListItemsTrimmed(lines[1..]);
      ListItemsUnfold(lines);
      var items := ListItems(lines);
      if IsMarkerLine(lines[0]) {
        forall i | 0 <= i < |items| ensures IsTrimmed(items[i]) {
          if i > 0 {
            assert IsTrimmed(rest[i - 1]);
          }
        }
      }
    }
  }

  /** The positions from `i` on where `marks` holds: strictly increasing, and exactly those. */
  function TruePositions(marks: seq<bool>, i: nat): (ps: seq<nat>)
    requires i <= |marks|
    ensures forall k :: 0 <= k < |ps| ==> i <= ps[k] < |marks| && marks[ps[k]]
    ensures forall k, l :: 0 <= k < l < |ps| ==> ps[k] < ps[l]
    ensures forall n :: i <= n < |marks| && marks[n] ==> n in ps
    decreases |marks| - i
  {
    if i == |marks| then []
    else (if marks[i] then [i] else []) + TruePositions(marks, i + 1)
  }

  lemma TruePositionsUnfold(marks: seq<bool>, i: nat)
    requires i < |marks|
    ensures TruePositions(marks, i) ==
            (if marks[i] then [i] + TruePositions(marks, i + 1) else TruePositions(marks, i + 1))
  {
    if !marks[i] {
      assert [] + TruePositions(marks, i + 1) == TruePositions(marks, i + 1);
    }
  }

  /** Which lines are marker lines. */
  function MarkerLines(lines: seq<string>): (marks: seq<bool>)
    ensures |marks| == |lines|
    ensures forall j :: 0 <= j < |lines| ==> marks[j] == IsMarkerLine(lines[j])
  {
    seq(|lines|, j requires 0 <= j < |lines| => IsMarkerLine(lines[j]))
  }

  /** The positions of the marker lines from `i` on, in order. */
  function MarkerPositions(lines: seq<string>, i: nat): seq<nat>
    requires i <= |lines|
  {
    TruePositions(MarkerLines(lines), i)
  }

  /** `items` are the item texts of the lines at `ps`, one each, in order. */
  predicate ItemsAt(lines: seq<string>, items: seq<string>, ps: seq<nat>) {
    |items| == |ps| &&
    forall k :: 0 <= k < |ps| ==> ps[k] < |lines| && IsMarkerLine(lines[ps[k]]) && items[k] == ItemText(lines[ps[k]])
  }

  /** A marker line's item in front of the items of later marker lines. */
  lemma ItemsAtCons(lines: seq<string>, i: nat, rest: seq<string>, qs: seq<nat>)
    requires i < |lines| && IsMarkerLine(lines[i]) && ItemsAt(lines, rest, qs)
    ensures ItemsAt(lines, [ItemText(lines[i])] + rest, [i] + qs)
  {
    var items, ps := [ItemText(lines[i])] + rest, [i] + qs;
    forall k | 0 <= k < |ps| ensures ps[k] < |lines| && IsMarkerLine(lines[ps[k]]) && items[k] == ItemText(lines[ps[k]]) {
      if k > 0 { assert items[k] == rest[k - 1] && ps[k] == qs[k - 1]; }
    }
  }

  /** The list items are the item texts of the marker lines, one each, in order. */
  lemma {:induction false} ListItemsAtMarkers(lines: seq<string>, i: nat)
    requires i <= |lines|
    ensures ItemsAt(lines, ListItems(lines[i..]), MarkerPositions(lines, i))
    decreases |lines| - i
  {
    if i < |lines| {
      var tail := lines[i..];
      assert tail[0] == lines[i];
      assert tail[1..] == lines[i + 1..];
      ListItemsUnfold(tail);
      ListItemsAtMarkers(lines, i + 1);
      TruePositionsUnfold(MarkerLines(lines), i);
      if IsMarkerLine(lines[i]) {
        ItemsAtCons(lines, i, ListItems(lines[i + 1..]), MarkerPositions(lines, i + 1));
      }
    }
  }

  /** One item per marker line of the paragraph's later lines, in order. */
  lemma ListItemsOfLines(lines: seq<string>)
    ensures var ps := MarkerPositions(lines, 0);
      |ListItems(lines)| == |ps| && forall k :: 0 <= k < |ps| ==> ListItems(lines)[k] == ItemText(lines[ps[k]])
  {
    assert lines[0..] == lines;
    ListItemsAtMarkers(lines, 0);
  }

  /** The first piece of a split is the text up to the first separator. */
  lemma SplitHead(s: string, sep: string)
    requires sep != [] && Contains(s, sep)
    ensures s == Split(s, sep)[0] + s[|Split(s, sep)[0]|..] && StartsWith(s, Split(s, sep)[0] + sep)
  {
    var k := IndexOf(s, sep, 0).value;
    assert Split(s, sep)[0] == s[..k];
    assert s[..k + |sep|] == s[..k] + sep;
  }

  /** A text that starts with `c`, not a newline, has a first line that starts with `c`. */
  lemma FirstLineStart(t: string, c: char)
    requires c != '\n' && t != [] && t[0] == c
    ensures Split(t, "\n")[0] != [] && Split(t, "\n")[0][0] == c
  {
    match IndexOf(t, "\n", 0)
    case None =>
    case Some(m) =>
      assert m != 0 by { assert t[0..1] != "\n"; }
      assert Split(t, "\n")[0] == t[..m];
  }

  /** Splitting at the first newline. */
  lemma SplitLinesUnfold(s: string, i: nat)
    requires IndexOf(s, "\n", 0) == Some(i)
    ensures Split(s, "\n") == [s[..i]] + Split(s[i + 1..], "\n")
  {
  }

  /** A newline followed by `c` (not itself a newline) makes some later line start with `c`. */
  lemma {:induction false} LineAfterNewline(s: string, c: char, k: nat)
    requires c != '\n' && OccursAt(s, ['\n', c], k)
    ensures exists j :: 1 <= j < |Split(s, "\n")| && Split(s, "\n")[j] != [] && Split(s, "\n")[j][0] == c
    decreases |s|
  {
    NewlinePair(s, c, k);
    var i := IndexOf(s, "\n", 0).value;
    var rest := s[i + 1..];
    SplitLinesUnfold(s, i);
    var lines := Split(s, "\n");
    if k == i {
      FirstLineStart(rest, c);
      assert lines[1] == Split(rest, "\n")[0];
    } else {
      PairInRest(s, c, k, i);
      LineAfterNewline(rest, c, k - i - 1);
      var j :| 1 <= j < |Split(rest, "\n")| && Split(rest, "\n")[j] != [] && Split(rest, "\n")[j][0] == c;
      assert lines[j + 1] == Split(rest, "\n")[j];
    }
  }

  lemma NewlinePair(s: string, c: char, k: nat)
    requires OccursAt(s, ['\n', c], k)
    ensures s[k] == '\n' && s[k + 1] == c && OccursAt(s, "\n", k)
  {
    assert s[k] == s[k..k + 2][0];
    assert s[k + 1] == s[k..k + 2][1];
    assert s[k..k + 1] == [s[k]];
  }

  lemma PairInRest(s: string, c: char, k: nat, i: nat)
    requires OccursAt(s, ['\n', c], k) && i < k
    ensures OccursAt(s[i + 1..], ['\n', c], k - i - 1)
  {
    assert s[i + 1..][k - i - 1..k - i + 1] == s[k..k + 2];
  }

  lemma NewlineOfMarker(p: string)
    requires Contains(p, "\n-") || Contains(p, "\n*")
    ensures Contains(p, "\n")
  {
    var k := if Contains(p, "\n-") then IndexOf(p, "\n-", 0).value else IndexOf(p, "\n*", 0).value;
    assert p[k] == '\n';
    assert OccursAt(p, "\n", k);
  }

  lemma ListParagraphHasItem(p: string)
    requires Contains(p, "\n-") || Contains(p, "\n*")
    ensures ListItems(Split(p, "\n")[1..]) != []
  {
    var c := if Contains(p, "\n-") then '-' else '*';
    var k := IndexOf(p, ['\n', c], 0).value;
    LineAfterNewline(p, c, k);
    var lines := Split(p, "\n");
    var j :| 1 <= j < |lines| && lines[j] != [] && lines[j][0] == c;
    MarkerAtStart(lines[j], c);
    assert lines[1..][j - 1] == lines[j];
  }

  /** A line starting with a marker is a marker line. */
  lemma MarkerAtStart(line: string, c: char)
    requires c == '-' || c == '*'
    requires line != [] && line[0] == c
    ensures IsMarkerLine(line)
  {
    assert !IsSpace(line[0]);
    assert Trim(line)[0] == c;
  }

  /**
   * The block one section paragraph becomes. A paragraph containing `"\n-"`
   * or `"\n*"` is a bullet list: its first line is the intro, and there is
   * at least one item, one per later marker line; any other paragraph is kept
   * verbatim.
   */
  function SectionBlock(p: string): (b: Block)
    ensures b.BulletList? <==> Contains(p, "\n-") || Contains(p, "\n*")
    ensures b.Paragraph? ==> b.text == p
    ensures b.BulletList? ==> StartsWith(p, b.intro + "\n") && !Contains(b.intro, "\n")
    ensures b.BulletList? ==> b.items == ListItems(Split(p, "\n")[1..]) && b.items != []
  {
    if Contains(p, "\n-") || Contains(p, "\n*") then
      var lines := Split(p, "\n");
      NewlineOfMarker(p);
      SplitHead(p, "\n");
      ListParagraphHasItem(p);
      BulletList(lines[0], ListItems(lines[1..]))
    else
      Paragraph(p)
  }

  function RenderItems(items: seq<string>): string {
    if items == [] then "" else "<li>" + items[0] + "</li>" + RenderItems(items[1..])
  }

  function RenderBlock(b: Block): (html: string)
    ensures html != []
  {
    match b
    case Paragraph(t) => "<p>" + t + "</p>"
    case BulletList(intro, items) => "<p>" + intro + "</p><ul>" + RenderItems(items) + "</ul>"
  }

  /** `.join('')` of the rendered blocks. */
  function RenderBlocks(bs: seq<Block>): (html: string)
    ensures html == [] <==> bs == []
  {
    if bs == [] then "" else RenderBlock(bs[0]) + RenderBlocks(bs[1..])
  }

  lemma {:induction false} RenderBlocksAppend(a: seq<Block>, b: seq<Block>)
    ensures RenderBlocks(a + b) == RenderBlocks(a) + RenderBlocks(b)
  {
    if a == [] {
      assert a + b == b;
    } else {
      assert (a + b)[0] == a[0];
      assert (a + b)[1..] == a[1..] + b;
      RenderBlocksAppend(a[1..], b);
    }
  }

  /** The blocks of a section body: one per paragraph, in order. */
  function SectionBlocks(content: string): (bs: seq<Block>)
    ensures |bs| == |Paragraphs(content)|
    ensures forall i :: 0 <= i < |bs| ==> bs[i] == SectionBlock(Paragraphs(content)[i])
  {
    SectionBlocksOf(Paragraphs(content))
  }

  function SectionBlocksOf(ps: seq<string>): (bs: seq<Block>)
    ensures |bs| == |ps|
    ensures forall i :: 0 <= i < |bs| ==> bs[i] == SectionBlock(ps[i])
  {
    seq(|ps|, i requires 0 <= i < |ps| => SectionBlock(ps[i]))
  }

  lemma SectionBlocksOfAppend(a: seq<string>, b: seq<string>)
    ensures SectionBlocksOf(a + b) == SectionBlocksOf(a) + SectionBlocksOf(b)
  {
    var l, r := SectionBlocksOf(a + b), SectionBlocksOf(a) + SectionBlocksOf(b);
    forall i | 0 <= i < |l| ensures l[i] == r[i] {
      if i < |a| { assert (a + b)[i] == a[i]; } else { assert (a + b)[i] == b[i - |a|]; }
    }
  }

  /** The blocks of a raw response: one plain paragraph per paragraph, in order. */
  function TextBlocks(text: string): (bs: seq<Block>)
    ensures |bs| == |Paragraphs(text)|
    ensures forall i :: 0 <= i < |bs| ==> bs[i] == Paragraph(Paragraphs(text)[i])
  {
    TextBlocksOf(Paragraphs(text))
  }

  function TextBlocksOf(ps: seq<string>): (bs: seq<Block>)
    ensures |bs| == |ps|
    ensures forall i :: 0 <= i < |bs| ==> bs[i] == Paragraph(ps[i])
  {
    seq(|ps|, i requires 0 <= i < |ps| => Paragraph(ps[i]))
  }

  lemma TextBlocksOfAppend(a: seq<string>, b: seq<string>)
    ensures TextBlocksOf(a + b) == TextBlocksOf(a) + TextBlocksOf(b)
  {
    var l, r := TextBlocksOf(a + b), TextBlocksOf(a) + TextBlocksOf(b);
    forall i | 0 <= i < |l| ensures l[i] == r[i] {
      if i < |a| { assert (a + b)[i] == a[i]; } else { assert (a + b)[i] == b[i - |a|]; }
    }
  }

  /** `formatSectionContent`: empty exactly when the body is all whitespace. */
  function FormatSectionContent(content: string): (html: string)
    ensures html == [] <==> AllSpace(content)
  {
    RenderBlocks(SectionBlocks(content))
  }

  /** `formatTextContent`: empty exactly when the text is all whitespace. */
  function FormatTextContent(text: string): (html: string)
    ensures html == [] <==> AllSpace(text)
  {
    RenderBlocks(TextBlocks(text))
  }

  /** Without a newline followed by a marker, a section body is formatted like raw text. */
  lemma SectionFormatWithoutMarkers(content: string)
    requires !Contains(content, "\n-") && !Contains(content, "\n*")
    ensures FormatSectionContent(content) == FormatTextContent(content)
  {
    ParagraphsAbsence(content, "\n-");
    ParagraphsAbsence(content, "\n*");
    assert SectionBlocks(content) == TextBlocks(content);
  }

  /** Texts whose paragraphs concatenate are formatted into concatenated markup. */
  lemma FormatTextOfParagraphs(x: string, y: string, z: string)
    requires Paragraphs(z) == Paragraphs(x) + Paragraphs(y)
    ensures FormatTextContent(z) == FormatTextContent(x) + FormatTextContent(y)
  {
    TextBlocksOfAppend(Paragraphs(x), Paragraphs(y));
    RenderBlocksAppend(TextBlocks(x), TextBlocks(y));
  }

  /** Section bodies whose paragraphs concatenate are formatted into concatenated markup. */
  lemma FormatSectionOfParagraphs(x: string, y: string, z: string)
    requires Paragraphs(z) == Paragraphs(x) + Paragraphs(y)
    ensures FormatSectionContent(z) == FormatSectionContent(x) + FormatSectionContent(y)
  {
    SectionBlocksOfAppend(Paragraphs(x), Paragraphs(y));
    RenderBlocksAppend(SectionBlocks(x), SectionBlocks(y));
  }

  /** Formatting raw text distributes over a blank line that ends its first paragraph. */
  lemma FormatTextAtBlankLine(a: string, b: string)
    requires !Contains(a, BlankLine) && (a == [] || a[|a| - 1] != '\n')
    ensures FormatTextContent(a + BlankLine + b) == FormatTextContent(a) + FormatTextContent(b)
  {
    ParagraphsAtBlankLine(a, b);
    FormatTextOfParagraphs(a, b, a + BlankLine + b);
  }

  /** Formatting a section body distributes over a blank line that ends its first paragraph. */
  lemma FormatSectionAtBlankLine(a: string, b: string)
    requires !Contains(a, BlankLine) && (a == [] || a[|a| - 1] != '\n')
    ensures FormatSectionContent(a + BlankLine + b) == FormatSectionContent(a) + FormatSectionContent(b)
  {
    ParagraphsAtBlankLine(a, b);
    FormatSectionOfParagraphs(a, b, a + BlankLine + b);
  }

  // ---------------------------------------------------------------------------
  // Result markup

  const ResultsOpen: string := "<div class=\"analysis-results\">"

  const DivClose: string := "</div>"

  /** One section of the structured view: its title and its formatted body. */
  function SectionHtml(key: string, body: string): string {
    "<div class=\"analysis-section\"><h3>" + GetSectionTitle(key) + "</h3><div class=\"section-content\">" +
    FormatSectionContent(body) + "</div></div>"
  }

  /** `if (sections[key])`: the key is present with a non-empty body. */
  predicate Shown(sections: map<string, string>, key: string) {
    key in sections && sections[key] != ""
  }

  /** The sections of `keys` that are shown, in the order of `keys`. */
  function RenderedSections(sections: map<string, string>, keys: seq<string>): string {
    if keys == [] then ""
    else
      var last := keys[|keys| - 1];
      RenderedSections(sections, keys[..|keys| - 1]) +
      (if Shown(sections, last) then SectionHtml(last, sections[last]) else "")
  }

  /** Extending the key prefix by one key appends that key's section, if shown. */
  lemma RenderedSectionsStep(sections: map<string, string>, keys: seq<string>, i: nat)
    requires i < |keys|
    ensures RenderedSections(sections, keys[..i + 1]) ==
            RenderedSections(sections, keys[..i]) +
            (if Shown(sections, keys[i]) then SectionHtml(keys[i], sections[keys[i]]) else "")
  {
    assert keys[..i + 1][..i] == keys[..i];
  }

  /** The structured view `displayStructuredResults` builds, sections in the fixed tag order. */
  function StructuredHtml(sections: map<string, string>): string {
    ResultsOpen + RenderedSections(sections, SectionTags) + DivClose
  }

  /** The raw view `displayRawResults` builds. */
  function RawHtml(response: string): string {
    ResultsOpen + "<div class=\"analysis-section\"><h3>Analysis Results</h3><div class=\"section-content\">" +
    FormatTextContent(response) + "</div></div>" + DivClose
  }

  /**
   * `displayResults`: the structured view when the parse found at least one
   * tag (even one with an empty body), the raw view otherwise.
   */
  function ResultsHtml(response: string): (html: string)
    ensures |ParseAnalysisResponse(response)| > 0 ==> html == StructuredHtml(ParseAnalysisResponse(response))
    ensures |ParseAnalysisResponse(response)| == 0 ==> html == RawHtml(response)
  {
    var sections := ParseAnalysisResponse(response);
    if |sections| > 0 then StructuredHtml(sections) else RawHtml(response)
  }

  /**
   * The positions in `keys` of the shown sections: strictly increasing, and
   * exactly the positions whose key is shown.
   */
  function ShownPositions(sections: map<string, string>, keys: seq<string>): (ps: seq<nat>)
    ensures forall i :: 0 <= i < |ps| ==> ps[i] < |keys| && Shown(sections, keys[ps[i]])
    ensures forall i, j :: 0 <= i < j < |ps| ==> ps[i] < ps[j]
    ensures forall n :: 0 <= n < |keys| && Shown(sections, keys[n]) ==> n in ps
  {
    if keys == [] then []
    else
      var n := |keys| - 1;
      var init := keys[..n];
      var ps := ShownPositions(sections, init);
      assert forall i :: 0 <= i < |ps| ==> keys[ps[i]] == init[ps[i]];
      assert forall m :: 0 <= m < n ==> keys[m] == init[m];
      ps + (if Shown(sections, keys[n]) then [n] else [])
  }

  /** The sections at the given positions of `keys`, concatenated in that order. */
  function SectionsAt(sections: map<string, string>, keys: seq<string>, ps: seq<nat>): string
    requires forall i :: 0 <= i < |ps| ==> ps[i] < |keys| && keys[ps[i]] in sections
  {
    if ps == [] then ""
    else
      var p := ps[|ps| - 1];
      SectionsAt(sections, keys, ps[..|ps| - 1]) + SectionHtml(keys[p], sections[keys[p]])
  }

  lemma {:induction false} SectionsAtPrefix(sections: map<string, string>, keys: seq<string>, m: nat, ps: seq<nat>)
    requires m <= |keys|
    requires forall i :: 0 <= i < |ps| ==> ps[i] < m && keys[ps[i]] in sections
    ensures SectionsAt(sections, keys, ps) == SectionsAt(sections, keys[..m], ps)
  {
    if ps != [] {
      SectionsAtPrefix(sections, keys, m, ps[..|ps| - 1]);
    }
  }

  /**
   * The structured view emits exactly the shown sections, each once, in the
   * order of the key list, however the sections map was built.
   */
  lemma {:induction false} RenderedInKeyOrder(sections: map<string, string>, keys: seq<string>)
    ensures RenderedSections(sections, keys) == SectionsAt(sections, keys, ShownPositions(sections, keys))
  {
    if keys != [] {
      var n := |keys| - 1;
      var init := keys[..n];
      RenderedInKeyOrder(sections, init);
      SectionsAtPrefix(sections, keys, n, ShownPositions(sections, init));
      ShownSectionsStep(sections, keys);
    }
  }

  /** Extending the keys by one adds that key's section at the end, if it is shown. */
  lemma ShownSectionsStep(sections: map<string, string>, keys: seq<string>)
    requires keys != []
    ensures var n := |keys| - 1;
      SectionsAt(sections, keys, ShownPositions(sections, keys)) ==
      SectionsAt(sections, keys, ShownPositions(sections, keys[..n])) +
      (if Shown(sections, keys[n]) then SectionHtml(keys[n], sections[keys[n]]) else "")
  {
    var n := |keys| - 1;
    var ps := ShownPositions(sections, keys[..n]);
    var all := ShownPositions(sections, keys);
    if Shown(sections, keys[n]) {
      assert all == ps + [n];
      SectionsAtSnoc(sections, keys, ps, n);
    } else {
      assert all == ps;
    }
  }

  lemma SectionsAtSnoc(sections: map<string, string>, keys: seq<string>, ps: seq<nat>, n: nat)
    requires forall i :: 0 <= i < |ps| ==> ps[i] < |keys| && keys[ps[i]] in sections
    requires n < |keys| && keys[n] in sections
    ensures SectionsAt(sections, keys, ps + [n]) == SectionsAt(sections, keys, ps) + SectionHtml(keys[n], sections[keys[n]])
  {
    assert (ps + [n])[..|ps|] == ps;
  }

  /** When every found section has an empty body, the structured view is empty, not the raw one. */
  lemma {:induction false} EmptyBodiesRenderNothing(sections: map<string, string>, keys: seq<string>)
    requires forall k :: k in sections ==> sections[k] == ""
    ensures RenderedSections(sections, keys) == ""
  {
    if keys != [] {
      EmptyBodiesRenderNothing(sections, keys[..|keys| - 1]);
    }
  }
}
