/** Heuristic markdown reconstruction of a document's extracted text.

    The output is a fixed metadata header followed by one rendering per
    paragraph, where a paragraph is a stripped, non-empty piece of the text
    between two occurrences of "\n\n". Each paragraph is classified as a
    level-2 heading, a level-3 heading, a plain paragraph, a list block or a
    paragraph whose lines are joined with spaces. */
module Markdown {
  import opened Strings

  const ParagraphSeparator: string := "\n\n"

  /** Paragraphs shorter than this may be headings (single lines only). */
  const HeadingLimit: nat := 100

  /** Headings shorter than this are level-2, the others level-3. */
  const ShortHeadingLimit: nat := 50

  /** The line prefixes that mark a list: a bullet, a dash, an asterisk, and
      the two literal numbers "1." and "2.". */
  const ListMarkers: seq<string> := ["\U{2022}", "-", "*", "1.", "2."]

  /** The metadata block every document starts with. */
  function Header(title: string, pageCount: nat, pdfFilename: string, processedDate: string): string
  {
    "# " + title + "\n\n" +
    "**Source**: " + pdfFilename + "\n" +
    "**Pages**: " + NatToString(pageCount) + "\n" +
    "**Processed**: " + processedDate + "\n\n" +
    "---\n\n"
  }

  /** Strips every piece and keeps the non-empty results, in order. */
  function CleanPieces(pieces: seq<string>): seq<string>
  {
    if pieces == [] then []
    else
      var p := Strip(pieces[0]);
      (if p == [] then [] else [p]) + CleanPieces(pieces[1..])
  }

  /** The paragraphs of a text: `[p.strip() for p in text.split("\n\n") if p.strip()]`. */
  function Paragraphs(text: string): seq<string>
  {
    CleanPieces(Split(text, ParagraphSeparator))
  }

  /** How a paragraph is rendered. */
  datatype Block =
    | Heading2(text: string)
    | Heading3(text: string)
    | Plain(text: string)
    | ListBlock(lines: seq<string>)
    | Joined(lines: seq<string>)

  /** All upper-case, or ending in a colon or a full stop. */
  predicate LooksLikeHeading(p: string)
  {
    IsUpper(p) || EndsWith(p, ':') || EndsWith(p, '.')
  }

  /** The stripped line starts with a bullet, a dash, an asterisk, "1." or
      "2.". */
  predicate IsListLine(line: string)
  {
    var t := Strip(line);
    StartsWith(t, "\U{2022}") || StartsWith(t, "-") || StartsWith(t, "*") ||
    StartsWith(t, "1.") || StartsWith(t, "2.")
  }

  /** Some line of the paragraph is a list line. */
  predicate HasListLine(lines: seq<string>)
  {
    lines != [] && (IsListLine(lines[0]) || HasListLine(lines[1..]))
  }

  /** `IsListLine` tests the markers of `ListMarkers`, and nothing else. */
  lemma IsListLineMeans(line: string)
    ensures IsListLine(line) <==> exists m <- ListMarkers :: StartsWith(Strip(line), m)
  {
    var t := Strip(line);
    if IsListLine(line) {
      if StartsWith(t, "\U{2022}") { assert ListMarkers[0] == "\U{2022}"; }
      else if StartsWith(t, "-") { assert ListMarkers[1] == "-"; }
      else if StartsWith(t, "*") { assert ListMarkers[2] == "*"; }
      else if StartsWith(t, "1.") { assert ListMarkers[3] == "1."; }
      else { assert ListMarkers[4] == "2."; }
    }
  }

  /** `HasListLine` is Python's `any` over the lines. */
  lemma {:induction false} HasListLineMeans(lines: seq<string>)
    ensures HasListLine(lines) <==> exists line <- lines :: IsListLine(line)
  {
    if lines != [] {
      HasListLineMeans(lines[1..]);
      assert lines == [lines[0]] + lines[1..];
    }
  }

  /** The classification of one paragraph. */
  function Classify(p: string): Block
  {
    var lines := Split(p, "\n");
    if |lines| == 1 && |p| < HeadingLimit then
      if LooksLikeHeading(p) then
        if |p| < ShortHeadingLimit then Heading2(p) else Heading3(p)
      else Plain(p)
    else if HasListLine(lines) then ListBlock(lines)
    else Joined(lines)
  }

  /** Every line followed by a newline. */
  function LinesBlock(lines: seq<string>): string
  {
    if lines == [] then [] else LinesBlock(lines[..|lines| - 1]) + lines[|lines| - 1] + "\n"
  }

  function Render(b: Block): string
  {
    match b
    case Heading2(p) => "## " + p + "\n\n"
    case Heading3(p) => "### " + p + "\n\n"
    case Plain(p) => p + "\n\n"
    case ListBlock(lines) => LinesBlock(lines) + "\n"
    case Joined(lines) => Join(lines, " ") + "\n\n"
  }

  /** The classification of every paragraph, in order. */
  function Blocks(ps: seq<string>): (bs: seq<Block>)
  {
    seq(|ps|, i requires 0 <= i < |ps| => Classify(ps[i]))
  }

  /** The renderings of the blocks, in order. */
  function RenderAll(bs: seq<Block>): string
  {
    if bs == [] then [] else RenderAll(bs[..|bs| - 1]) + Render(bs[|bs| - 1])
  }

  /** The whole markdown document. */
  function MarkdownOf(text: string, title: string, pageCount: nat, pdfFilename: string, processedDate: string): string
  {
    Header(title, pageCount, pdfFilename, processedDate) + RenderAll(Blocks(Paragraphs(text)))
  }

  /** Appends every line followed by a newline, one line at a time. */
  method AppendLines(markdown: string, lines: seq<string>) returns (result: string)
    ensures result == markdown + LinesBlock(lines)
  {
    result := markdown;
    var j := 0;
    while j < |lines|
      invariant j <= |lines|
      invariant result == markdown + LinesBlock(lines[..j])
    {
      assert lines[..j + 1][..j] == lines[..j];
      ConcatAssoc(markdown, LinesBlock(lines[..j]), lines[j] + "\n");
      ConcatAssoc(LinesBlock(lines[..j]), lines[j], "\n");
      result := result + (lines[j] + "\n");
      j := j + 1;
    }
    assert lines[..j] == lines;
  }

  /** Appends the rendering of one paragraph: a heading or plain line, the
      lines of a list one by one, or the lines joined with spaces. */
  method AppendParagraph(markdown: string, paragraph: string) returns (result: string)
    ensures result == markdown + Render(Classify(paragraph))
  {
    var lines := Split(paragraph, "\n");
    if |lines| == 1 && |paragraph| < HeadingLimit {
      if IsUpper(paragraph) || EndsWith(paragraph, ':') || EndsWith(paragraph, '.') {
        if |paragraph| < ShortHeadingLimit {
          result := markdown + ("## " + paragraph + "\n\n");
        } else {
          result := markdown + ("### " + paragraph + "\n\n");
        }
      } else {
        result := markdown + (paragraph + "\n\n");
      }
    } else if HasListLine(lines) {
      assert Classify(paragraph) == ListBlock(lines);
      result := AppendLines(markdown, lines);
      ConcatAssoc(markdown, LinesBlock(lines), "\n");
      result := result + "\n";
    } else {
      result := markdown + (Join(lines, " ") + "\n\n");
    }
  }

  /** The document opens with its metadata block, whatever the text. */
  lemma MarkdownStartsWithHeader(text: string, title: string, pageCount: nat, pdfFilename: string, processedDate: string)
    ensures StartsWith(MarkdownOf(text, title, pageCount, pdfFilename, processedDate),
                       Header(title, pageCount, pdfFilename, processedDate))
  {
    var h := Header(title, pageCount, pdfFilename, processedDate);
    var m := MarkdownOf(text, title, pageCount, pdfFilename, processedDate);
    assert m[..|h|] == h;
  }

  /** The reconstruction: the header, then every paragraph in turn appended
      to the document under construction. */
  method GenerateMarkdown(text: string, title: string, pageCount: nat, pdfFilename: string, processedDate: string)
    returns (markdown: string)
    ensures markdown == MarkdownOf(text, title, pageCount, pdfFilename, processedDate)
  {
    var header := Header(title, pageCount, pdfFilename, processedDate);
    markdown := header;
    var paragraphs := Paragraphs(text);
    ghost var blocks := Blocks(paragraphs);
    var i := 0;
    while i < |paragraphs|
      invariant i <= |paragraphs|
      invariant markdown == header + RenderAll(blocks[..i])
    {
      RenderAllPrefix(blocks, i);
      ConcatAssoc(header, RenderAll(blocks[..i]), Render(blocks[i]));
      markdown := AppendParagraph(markdown, paragraphs[i]);
      i := i + 1;
    }
    assert blocks[..i] == blocks;
  }

  // ---------------------------------------------------------------------
  // Properties of the reconstruction

  /** A paragraph is non-empty, has no whitespace at either end, and holds no
      blank-line separator. */
  ghost predicate CleanParagraph(p: string)
  {
    p != [] && !IsSpace(p[0]) && !IsSpace(p[|p| - 1]) && Free(p, ParagraphSeparator)
  }

  lemma OccursInSlice(s: string, sep: string, a: nat, b: nat, j: nat)
    requires a <= b <= |s|
    ensures OccursAt(s[a..b], sep, j) ==> OccursAt(s, sep, a + j)
  {
    if j + |sep| <= b - a {
      var u, v := s[a..b][j..j + |sep|], s[a + j..a + j + |sep|];
      assert |u| == |v|;
      forall k | 0 <= k < |u| ensures u[k] == v[k] {
        assert u[k] == s[a + j + k];
      }
      assert u == v;
    }
  }

  lemma SliceFree(s: string, sep: string, a: nat, b: nat)
    requires a <= b <= |s|
    requires Free(s, sep)
    ensures Free(s[a..b], sep)
  {
    forall j: nat ensures !OccursAt(s[a..b], sep, j) {
      OccursInSlice(s, sep, a, b, j);
    }
  }

  lemma {:induction false} CleanPiecesClean(pieces: seq<string>)
    requires forall q <- pieces :: Free(q, ParagraphSeparator)
    ensures forall p <- CleanPieces(pieces) :: CleanParagraph(p)
  {
    if pieces != [] {
      CleanPiecesClean(pieces[1..]);
      var q := pieces[0];
      var p := Strip(q);
      if p != [] {
        var a, b := StripIsTrimmedSlice(q);
        StripEnds(q);
        SliceFree(q, ParagraphSeparator, a, b);
      }
    }
  }

  /** Every paragraph is non-empty, stripped, and free of blank-line
      separators. */
  lemma ParagraphsAreClean(text: string)
    ensures forall p <- Paragraphs(text) :: CleanParagraph(p)
  {
    SplitPartsFree(text, ParagraphSeparator);
    CleanPiecesClean(Split(text, ParagraphSeparator));
  }

  /** Joining the lines with the line separator after every line gives the
      paragraph followed by one newline. */
  lemma {:induction false} LinesBlockJoin(lines: seq<string>)
    requires lines != []
    ensures LinesBlock(lines) == Join(lines, "\n") + "\n"
    decreases |lines|
  {
    if |lines| > 1 {
      var init := lines[..|lines| - 1];
      assert lines == init + [lines[|lines| - 1]];
      LinesBlockJoin(init);
      JoinSnoc(init, lines[|lines| - 1], "\n");
    }
  }

  lemma {:induction false} JoinSnoc(parts: seq<string>, last: string, sep: string)
    requires parts != []
    ensures Join(parts + [last], sep) == Join(parts, sep) + sep + last
    decreases |parts|
  {
    if |parts| == 1 {
      assert (parts + [last])[1..] == [last];
    } else {
      JoinSnoc(parts[1..], last, sep);
      assert (parts + [last])[1..] == parts[1..] + [last];
    }
  }

  /** `s` with every newline replaced by a space. */
  function NewlinesToSpaces(s: string): (r: string)
  {
    seq(|s|, i requires 0 <= i < |s| => if s[i] == '\n' then ' ' else s[i])
  }

  lemma NewlinesToSpacesConcat(a: string, b: string)
    ensures NewlinesToSpaces(a + b) == NewlinesToSpaces(a) + NewlinesToSpaces(b)
  {
  }

  /** The text before the first newline has no newline to replace. */
  lemma FirstLineKept(s: string)
    ensures NewlinesToSpaces(s[..Find(s, "\n", 0)]) == s[..Find(s, "\n", 0)]
  {
    var i := Find(s, "\n", 0);
    var head := s[..i];
    forall j | 0 <= j < i ensures head[j] != '\n' {
      FindFirst(s, "\n", 0, j);
      assert s[j..j + 1] == [s[j]];
    }
  }

  /** Replacing the newlines of `head + "\n" + rest`, where `head` has
      none, gives `head + " "` followed by the replaced `rest`. */
  lemma NewlinesToSpacesStep(head: string, rest: string)
    requires NewlinesToSpaces(head) == head
    ensures NewlinesToSpaces(head + "\n" + rest) == head + " " + NewlinesToSpaces(rest)
  {
    NewlinesToSpacesConcat(head + "\n", rest);
    NewlinesToSpacesConcat(head, "\n");
  }

  /** Joining the lines of `s` with spaces replaces each newline by a space. */
  lemma {:induction false} JoinLinesWithSpaces(s: string)
    ensures Join(Split(s, "\n"), " ") == NewlinesToSpaces(s)
    decreases |s|
  {
    var i := Find(s, "\n", 0);
    var head := s[..i];
    FirstLineKept(s);
    if i < |s| {
      var rest := s[i + 1..];
      var tail := Split(rest, "\n");
      assert Split(s, "\n") == [head] + tail;
      JoinLinesWithSpaces(rest);
      JoinCons(head, tail, " ");
      SplitAround(s, i);
      NewlinesToSpacesStep(head, rest);
    } else {
      assert head == s;
    }
  }

  lemma NoNewlineSingleLine(p: string)
    ensures |Split(p, "\n")| == 1 <==> '\n' !in p
  {
    SplitSingle(p, "\n");
    if '\n' in p {
      var j :| 0 <= j < |p| && p[j] == '\n';
      assert p[j..j + 1] == "\n";
      assert OccursAt(p, "\n", j);
    } else {
      forall j: nat ensures !OccursAt(p, "\n", j) {
        if j + 1 <= |p| {
          assert p[j..j + 1] == [p[j]];
        }
      }
    }
  }

  /** Heading rule: a single line shorter than 100 characters that looks like
      a heading is a level-2 heading below 50 characters and a level-3 one
      otherwise; any other single line shorter than 100 is a plain
      paragraph. Each is rendered as its own text with a marker in front and
      a blank line after it. */
  lemma HeadingRule(p: string)
    requires '\n' !in p && |p| < HeadingLimit
    ensures LooksLikeHeading(p) && |p| < ShortHeadingLimit ==>
              Classify(p) == Heading2(p) && Render(Classify(p)) == "## " + p + "\n\n"
    ensures LooksLikeHeading(p) && |p| >= ShortHeadingLimit ==>
              Classify(p) == Heading3(p) && Render(Classify(p)) == "### " + p + "\n\n"
    ensures !LooksLikeHeading(p) ==>
              Classify(p) == Plain(p) && Render(Classify(p)) == p + "\n\n"
  {
    NoNewlineSingleLine(p);
  }

  /** A list paragraph is rendered as it stands: its lines, each followed
      by a newline, and one more newline. */
  lemma ListRule(p: string)
    requires '\n' in p || |p| >= HeadingLimit
    requires HasListLine(Split(p, "\n"))
    ensures Classify(p) == ListBlock(Split(p, "\n"))
    ensures Render(Classify(p)) == p + "\n\n"
  {
    var lines := Split(p, "\n");
    NoNewlineSingleLine(p);
    assert Classify(p) == ListBlock(lines);
    LinesBlockJoin(lines);
    JoinSplit(p, "\n");
    TwoNewlines(p);
  }

  lemma TwoNewlines(p: string)
    ensures p + "\n" + "\n" == p + "\n\n"
  {
  }

  /** Any other paragraph has its lines joined with single spaces. */
  lemma JoinRule(p: string)
    requires '\n' in p || |p| >= HeadingLimit
    requires !HasListLine(Split(p, "\n"))
    ensures Classify(p) == Joined(Split(p, "\n"))
    ensures Render(Classify(p)) == NewlinesToSpaces(p) + "\n\n"
  {
    var lines := Split(p, "\n");
    NoNewlineSingleLine(p);
    assert Classify(p) == Joined(lines);
    JoinLinesWithSpaces(p);
  }

  /** Appending one block appends its rendering. */
  lemma RenderAllSnoc(bs: seq<Block>, b: Block)
    ensures RenderAll(bs + [b]) == RenderAll(bs) + Render(b)
  {
    assert (bs + [b])[..|bs|] == bs;
  }

  /** Extending a prefix by one block appends that block's rendering. */
  lemma RenderAllPrefix(bs: seq<Block>, i: nat)
    requires i < |bs|
    ensures RenderAll(bs[..i + 1]) == RenderAll(bs[..i]) + Render(bs[i])
  {
    assert bs[..i + 1] == bs[..i] + [bs[i]];
    RenderAllSnoc(bs[..i], bs[i]);
  }

  /** The document is the header followed by the renderings of the
      paragraphs in order: appending blocks appends their renderings. */
  lemma {:induction false} RenderAllAppend(bs: seq<Block>, cs: seq<Block>)
    ensures RenderAll(bs + cs) == RenderAll(bs) + RenderAll(cs)
    decreases |cs|
  {
    if cs == [] {
      assert bs + cs == bs;
    } else {
      var init, last := cs[..|cs| - 1], cs[|cs| - 1];
      assert cs == init + [last];
      assert bs + cs == (bs + init) + [last];
      RenderAllAppend(bs, init);
      RenderAllSnoc(bs + init, last);
      RenderAllSnoc(init, last);
      ConcatAssoc(RenderAll(bs), RenderAll(init), Render(last));
    }
  }
}
