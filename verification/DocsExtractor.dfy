/** Reading the external-name block of a resource out of a Go source file, line by line. */
module DocsExtractor {
  import opened Text

  type Name = s: string | s != "" witness "x"

  /** A comment line's text behind the slashes, and the name in it if it is an annotation. */
  datatype Comment = Comment(content: string, annotation: Option<Name>)

  /** What the regular expressions make of a line. */
  datatype Line = Line(marker: bool, comment: Option<Comment>, typeName: Option<Name>)

  datatype ResourceConfig = ResourceConfig(name: Name, content: string)

  // ---- formatting the block ----

  predicate HowToFind(line: string) {
    "- How to find:" <= Trim(line)
  }

  predicate Dashed(line: string) {
    "-" <= Trim(line)
  }

  /** Only dashed lines separate the line from an earlier "How to find". */
  ghost predicate InHowToFind(lines: seq<string>, i: nat)
    requires i <= |lines|
  {
    exists j :: 0 <= j < i && HowToFind(lines[j]) && forall k :: j < k < i ==> Dashed(lines[k])
  }

  ghost function Rendered(lines: seq<string>, i: nat): seq<string>
    requires i < |lines|
  {
    if HowToFind(lines[i]) then [lines[i], ""]
    else if Dashed(lines[i]) && InHowToFind(lines, i) then ["  " + Trim(lines[i])]
    else [lines[i]]
  }

  /** The first `n` lines as they come out. */
  ghost function AllRendered(lines: seq<string>, n: nat): seq<string>
    requires n <= |lines|
  {
    if n == 0 then [] else AllRendered(lines, n - 1) + Rendered(lines, n - 1)
  }

  ghost function Formatted(lines: seq<string>): string {
    Join(AllRendered(lines, |lines|), '\n')
  }

  lemma HowToFindStep(lines: seq<string>, i: nat)
    requires i < |lines|
    ensures InHowToFind(lines, i + 1) <==> HowToFind(lines[i]) || (InHowToFind(lines, i) && Dashed(lines[i]))
  {
  }

  /** The first `i` lines have come out as `result`, and the next one is in a section or not. */
  ghost predicate Rendering(lines: seq<string>, i: nat, result: seq<string>, inHowToFind: bool) {
    i <= |lines| && result == AllRendered(lines, i) && inHowToFind == InHowToFind(lines, i)
  }

  lemma OpenSection(lines: seq<string>, i: nat, result: seq<string>, inHowToFind: bool)
    requires Rendering(lines, i, result, inHowToFind) && i < |lines| && HowToFind(lines[i])
    ensures Rendering(lines, i + 1, result + [lines[i]] + [""], true)
  {
    HowToFindStep(lines, i);
    assert result + [lines[i], ""] == result + [lines[i]] + [""];
  }

  lemma ContinueSection(lines: seq<string>, i: nat, result: seq<string>)
    requires Rendering(lines, i, result, true) && i < |lines| && !HowToFind(lines[i]) && Dashed(lines[i])
    ensures Rendering(lines, i + 1, result + ["  " + Trim(lines[i])], true)
  {
    HowToFindStep(lines, i);
  }

  lemma OutsideSection(lines: seq<string>, i: nat, result: seq<string>, inHowToFind: bool)
    requires Rendering(lines, i, result, inHowToFind) && i < |lines| && !HowToFind(lines[i])
    requires !(inHowToFind && Dashed(lines[i]))
    ensures Rendering(lines, i + 1, result + [lines[i]], false)
  {
    HowToFindStep(lines, i);
  }

  method FormatCommentContent(lines: seq<string>) returns (r: string)
    ensures r == Formatted(lines)
  {
    var result: seq<string> := [];
    var inHowToFind := false;
    var i := 0;
    while i < |lines|
      invariant Rendering(lines, i, result, inHowToFind)
    {
      var line := lines[i];
      var trimmed := Trim(line);
      if "- How to find:" <= trimmed {
        OpenSection(lines, i, result, inHowToFind);
        result := result + [line];
        inHowToFind := true;
        result := result + [""];
      } else if inHowToFind && "-" <= trimmed {
        ContinueSection(lines, i, result);
        result := result + ["  " + trimmed];
      } else {
        OutsideSection(lines, i, result, inHowToFind);
        if inHowToFind && !("-" <= trimmed) {
          inHowToFind := false;
        }
        result := result + [line];
      }
      i := i + 1;
    }
    r := Join(result, '\n');
  }

  /** Formatting changes nothing but white space around a line and the blank line it adds after
      "How to find". */
  lemma RenderingKeepsText(lines: seq<string>, i: nat)
    requires i < |lines|
    ensures var out := Rendered(lines, i);
            Trim(out[0]) == Trim(lines[i]) && out[1..] == if HowToFind(lines[i]) then [""] else []
  {
    var t := Trim(lines[i]);
    TrimLeftIs(lines[i]);
    TrimRightIs(TrimLeft(lines[i]));
    assert ("  " + t)[1..] == " " + t && (" " + t)[1..] == t;
    assert TrimLeft("  " + t) == TrimLeft(" " + t) == TrimLeft(t);
    assert t != "" ==> t[0] == TrimLeft(lines[i])[0];
  }

  /** In a section, the dashed lines become items of a nested list: two spaces, the dash, the text;
      lines outside one, and the line that opens it, come out as they are. */
  lemma IndentationIs(lines: seq<string>, i: nat)
    requires i < |lines|
    ensures var first := Rendered(lines, i)[0];
            if InHowToFind(lines, i) && Dashed(lines[i]) && !HowToFind(lines[i])
            then "  -" <= first && first[2..] == Trim(lines[i])
            else first == lines[i]
  {
  }

  /** A section is opened by a line that reads "- How to find:", white space aside, and a dashed
      line is one that reads "-". */
  lemma SectionOpens(x: string, y: string, rest: string)
    requires Blank(x) && Blank(y) && (rest == "" || !IsSpace(rest[|rest| - 1]))
    ensures Dashed(x + ("-" + rest) + y)
    ensures HowToFind(x + ("- How to find:" + rest) + y)
    ensures HowToFind(x + ("-" + rest) + y) <==> " How to find:" <= rest
  {
    TrimOf(x, "-" + rest, y);
    TrimOf(x, "- How to find:" + rest, y);
    assert ("-" + rest)[1..] == rest;
    assert "- How to find:"[1..] == " How to find:";
    if "- How to find:" <= "-" + rest {
      assert rest[..13] == ("-" + rest)[..14][1..];
    }
    if " How to find:" <= rest {
      assert ("-" + rest)[..14] == "-" + rest[..13];
    }
  }

  lemma TrimOf(x: string, s: string, y: string)
    requires Blank(x) && Blank(y) && s != "" && !IsSpace(s[0]) && !IsSpace(s[|s| - 1])
    ensures Trim(x + s + y) == s
  {
    TrimLeftOf(x, s + y);
    assert x + (s + y) == x + s + y;
    TrimRightOf(s, y);
  }

  lemma {:induction false} TrimLeftOf(x: string, s: string)
    requires Blank(x) && s != "" && !IsSpace(s[0])
    ensures TrimLeft(x + s) == s
    decreases |x|
  {
    if x == "" {
      assert x + s == s;
    } else {
      TrimLeftOf(x[1..], s);
      assert (x + s)[1..] == x[1..] + s;
    }
  }

  lemma {:induction false} TrimRightOf(s: string, y: string)
    requires Blank(y) && s != "" && !IsSpace(s[|s| - 1])
    ensures TrimRight(s + y) == s
    decreases |y|
  {
    if y == "" {
      assert s + y == s;
    } else {
      TrimRightOf(s, y[..|y| - 1]);
      assert (s + y)[..|s + y| - 1] == s + y[..|y| - 1];
    }
  }

  /** How many lines before line `n` open a section. */
  ghost function Openings(lines: seq<string>, n: nat): nat
    requires n <= |lines|
  {
    if n == 0 then 0 else Openings(lines, n - 1) + (if HowToFind(lines[n - 1]) then 1 else 0)
  }

  lemma RenderedSize(lines: seq<string>, i: nat)
    requires i < |lines|
    ensures var out := Rendered(lines, i);
            if HowToFind(lines[i]) then |out| == 2 && out[1] == "" else |out| == 1
  {
  }

  lemma {:induction false} AllRenderedSize(lines: seq<string>, n: nat)
    requires n <= |lines|
    ensures |AllRendered(lines, n)| == n + Openings(lines, n)
  {
    if n > 0 {
      AllRenderedSize(lines, n - 1);
      RenderedSize(lines, n - 1);
      assert AllRendered(lines, n) == AllRendered(lines, n - 1) + Rendered(lines, n - 1);
    }
  }

  lemma {:induction false} AllRenderedGrows(lines: seq<string>, m: nat, n: nat)
    requires m <= n <= |lines|
    ensures AllRendered(lines, m) <= AllRendered(lines, n)
    decreases n
  {
    if m < n {
      AllRenderedGrows(lines, m, n - 1);
    }
  }

  /** The lines come out in their order, each behind those before it and their blank lines. */
  lemma LinesKeepOrder(lines: seq<string>, i: nat)
    requires i < |lines|
    ensures var out, at := AllRendered(lines, |lines|), i + Openings(lines, i);
            && |out| == |lines| + Openings(lines, |lines|)
            && at < |out| && out[at] == Rendered(lines, i)[0]
            && (HowToFind(lines[i]) ==> at + 1 < |out| && out[at + 1] == "")
  {
    AllRenderedSize(lines, i);
    AllRenderedSize(lines, |lines|);
    RenderedSize(lines, i);
    AllRenderedGrows(lines, i + 1, |lines|);
    PrefixHas(AllRendered(lines, |lines|), AllRendered(lines, i), Rendered(lines, i));
  }

  lemma PrefixHas(out: seq<string>, before: seq<string>, more: seq<string>)
    requires before + more <= out
    ensures forall k :: 0 <= k < |more| ==> |before| + k < |out| && out[|before| + k] == more[k]
  {
    forall k | 0 <= k < |more| ensures |before| + k < |out| && out[|before| + k] == more[k] {
      assert (before + more)[|before| + k] == more[k];
    }
  }

  /** The lines of the text are the lines as they come out. */
  lemma FormattedLines(lines: seq<string>)
    requires lines != [] && Free(lines, '\n')
    ensures Split(Formatted(lines), '\n') == AllRendered(lines, |lines|)
  {
    AllRenderedFree(lines, |lines|);
    AllRenderedSize(lines, |lines|);
    SplitOfJoin(AllRendered(lines, |lines|), '\n');
  }

  lemma {:induction false} AllRenderedFree(lines: seq<string>, n: nat)
    requires n <= |lines| && Free(lines, '\n')
    ensures Free(AllRendered(lines, n), '\n')
  {
    if n > 0 {
      AllRenderedFree(lines, n - 1);
      RenderedFree(lines, n - 1);
      var a, b := AllRendered(lines, n - 1), Rendered(lines, n - 1);
      assert forall i :: |a| <= i < |a + b| ==> (a + b)[i] == b[i - |a|];
    }
  }

  lemma RenderedFree(lines: seq<string>, i: nat)
    requires i < |lines| && '\n' !in lines[i]
    ensures Free(Rendered(lines, i), '\n')
  {
    TrimIs(lines[i]);
    var x, y :| Blank(x) && Blank(y) && lines[i] == x + Trim(lines[i]) + y;
  }

  // ---- the block, as the documentation describes it ----

  predicate InBlock(line: Line) {
    line.comment.Some? && Trim(line.comment.value.content) != ""
  }

  /** A block is made of comment lines with some text in them. */
  lemma InBlockIff(line: Line)
    ensures InBlock(line) <==> line.comment.Some? && !Blank(line.comment.value.content)
  {
    if line.comment.Some? {
      var s := line.comment.value.content;
      TrimIs(s);
      var x, y :| Blank(x) && Blank(y) && s == x + Trim(s) + y;
      if Trim(s) == "" {
        assert forall i :: 0 <= i < |s| ==> IsSpace(s[i]);
      } else {
        assert s[|x|] == Trim(s)[0];
      }
    }
  }

  /** The first marker line is `m`, and the block behind it ends before line `e`. */
  ghost predicate Block(lines: seq<Line>, m: nat, e: nat) {
    && m < e <= |lines|
    && lines[m].marker && (forall k :: 0 <= k < m ==> !lines[k].marker)
    && (forall k :: m < k < e ==> InBlock(lines[k]))
    && (e < |lines| ==> !InBlock(lines[e]))
  }

  /** The texts of a block's lines but the annotations. */
  function Contents(block: seq<Line>): seq<string> {
    if block == [] then []
    else
      Contents(block[..|block| - 1]) +
      match block[|block| - 1].comment
      case None => []
      case Some(comment) => if comment.annotation.Some? then [] else [comment.content]
  }

  /** Nothing but the annotations is dropped, and nothing changes places. */
  lemma {:induction false} ContentsOfConcat(a: seq<Line>, b: seq<Line>)
    ensures Contents(a + b) == Contents(a) + Contents(b)
    decreases |b|
  {
    if b == [] {
      assert a + b == a;
    } else {
      var init := b[..|b| - 1];
      ContentsOfConcat(a, init);
      assert (a + b)[..|a + b| - 1] == a + init;
    }
  }

  lemma ContentsOfOne(line: Line)
    ensures line.comment.Some? && line.comment.value.annotation == None ==> Contents([line]) == [line.comment.value.content]
    ensures line.comment.None? || line.comment.value.annotation.Some? ==> Contents([line]) == []
  {
    assert [line][..0] == [];
  }

  /** The block's last annotation. */
  ghost predicate AnnotatedBy(block: seq<Line>, name: Name) {
    exists i :: 0 <= i < |block| && block[i].comment.Some? && block[i].comment.value.annotation == Some(name)
                && forall k :: i < k < |block| && block[k].comment.Some? ==> block[k].comment.value.annotation == None
  }

  ghost predicate Unannotated(block: seq<Line>) {
    forall k :: 0 <= k < |block| && block[k].comment.Some? ==> block[k].comment.value.annotation == None
  }

  /** The first type after line `e`. */
  ghost predicate TypedBy(lines: seq<Line>, e: nat, name: Name) {
    exists t :: e < t < |lines| && lines[t].typeName == Some(name) && forall k :: e < k < t ==> lines[k].typeName == None
  }

  ghost predicate Untyped(lines: seq<Line>, e: nat) {
    forall k :: e < k < |lines| ==> lines[k].typeName == None
  }

  /** The block's contents, under the name of its last annotation or else of the first type
      strictly behind the line that ended it; nothing without a marker or without a name. */
  ghost predicate IsExtraction(lines: seq<Line>, r: Option<ResourceConfig>) {
    || (r == None && forall k :: 0 <= k < |lines| ==> !lines[k].marker)
    || exists m, e {:trigger Block(lines, m, e)} :: Block(lines, m, e) && Names(lines, m, e, r)
  }

  ghost predicate Names(lines: seq<Line>, m: nat, e: nat, r: Option<ResourceConfig>)
    requires Block(lines, m, e)
  {
    var block := lines[m + 1..e];
    match r
    case None => Unannotated(block) && Untyped(lines, e)
    case Some(config) =>
      && (AnnotatedBy(block, config.name) || (Unannotated(block) && TypedBy(lines, e, config.name)))
      && config.content == Formatted(Contents(block))
  }

  lemma NamesUnique(lines: seq<Line>, m: nat, e: nat, a: Option<ResourceConfig>, b: Option<ResourceConfig>)
    requires Block(lines, m, e) && Names(lines, m, e, a) && Names(lines, m, e, b)
    ensures a == b
  {
  }

  lemma BlockUnique(lines: seq<Line>, m: nat, e: nat, m': nat, e': nat)
    requires Block(lines, m, e) && Block(lines, m', e')
    ensures m == m' && e == e'
  {
  }

  /** The description leaves no choice. */
  lemma ExtractionUnique(lines: seq<Line>, a: Option<ResourceConfig>, b: Option<ResourceConfig>)
    requires IsExtraction(lines, a) && IsExtraction(lines, b)
    ensures a == b
  {
    if k :| 0 <= k < |lines| && lines[k].marker {
      var m, e :| Block(lines, m, e) && Names(lines, m, e, a);
      var m', e' :| Block(lines, m', e') && Names(lines, m', e', b);
      BlockUnique(lines, m, e, m', e');
      NamesUnique(lines, m, e, a, b);
    }
  }

  // ---- the state machine ----

  datatype ScanState = Searching | InComment | AfterComment

  /** Lines `m` on are in the block so far, and `name` is its last annotation, "" for none. */
  ghost predicate Collecting(lines: seq<Line>, m: nat, end: nat, commentLines: seq<string>, name: string) {
    && m < end <= |lines|
    && lines[m].marker && (forall k :: 0 <= k < m ==> !lines[k].marker)
    && (forall k :: m < k < end ==> InBlock(lines[k]))
    && commentLines == Contents(lines[m + 1..end])
    && (if name == "" then Unannotated(lines[m + 1..end]) else AnnotatedBy(lines[m + 1..end], name))
  }

  lemma AnnotatedSnoc(block: seq<Line>, line: Line, name: string)
    requires line.comment.Some?
    requires if name == "" then Unannotated(block) else AnnotatedBy(block, name)
    ensures match line.comment.value.annotation
            case Some(last) => AnnotatedBy(block + [line], last)
            case None => if name == "" then Unannotated(block + [line]) else AnnotatedBy(block + [line], name)
  {
    var longer := block + [line];
    assert longer[|block|] == line;
    if line.comment.value.annotation.None? && name != "" {
      var i :| 0 <= i < |block| && block[i].comment.Some? && block[i].comment.value.annotation == Some(name)
               && forall k :: i < k < |block| && block[k].comment.Some? ==> block[k].comment.value.annotation == None;
      assert longer[i] == block[i];
    }
  }

  lemma CollectOne(lines: seq<Line>, m: nat, end: nat, commentLines: seq<string>, name: string)
    requires Collecting(lines, m, end, commentLines, name) && end < |lines| && InBlock(lines[end])
    ensures var comment := lines[end].comment.value;
            if comment.annotation.Some? then Collecting(lines, m, end + 1, commentLines, comment.annotation.value)
            else Collecting(lines, m, end + 1, commentLines + [comment.content], name)
  {
    var block, longer := lines[m + 1..end], lines[m + 1..end + 1];
    assert longer == block + [lines[end]];
    assert longer[..|longer| - 1] == block;
    AnnotatedSnoc(block, lines[end], name);
  }

  /** The block ended before line `e` without a name, and no type has come up to line `end`. */
  ghost predicate Ended(lines: seq<Line>, m: nat, e: nat, end: nat, commentLines: seq<string>) {
    && Block(lines, m, e) && Collecting(lines, m, e, commentLines, "")
    && e < end <= |lines| && forall k :: e < k < end ==> lines[k].typeName == None
  }

  ghost predicate NoMarker(lines: seq<Line>, end: nat) {
    end <= |lines| && forall k :: 0 <= k < end ==> !lines[k].marker
  }

  lemma AnnotationNames(lines: seq<Line>, m: nat, e: nat, commentLines: seq<string>, config: ResourceConfig)
    requires Collecting(lines, m, e, commentLines, config.name) && (e < |lines| ==> !InBlock(lines[e]))
    requires config.content == Formatted(commentLines)
    ensures IsExtraction(lines, Some(config))
  {
    assert Block(lines, m, e) && Names(lines, m, e, Some(config));
  }

  lemma TypeNames(lines: seq<Line>, m: nat, e: nat, t: nat, commentLines: seq<string>, config: ResourceConfig)
    requires Ended(lines, m, e, t, commentLines) && t < |lines| && lines[t].typeName == Some(config.name)
    requires config.content == Formatted(commentLines)
    ensures IsExtraction(lines, Some(config))
  {
  }

  lemma NothingNames(lines: seq<Line>, m: nat, e: nat, commentLines: seq<string>)
    requires Collecting(lines, m, e, commentLines, "") && (e < |lines| ==> !InBlock(lines[e])) && Untyped(lines, e)
    ensures IsExtraction(lines, None)
  {
    assert Block(lines, m, e) && Names(lines, m, e, None);
  }

  lemma SearchOne(lines: seq<Line>, m: nat)
    requires NoMarker(lines, m) && m < |lines|
    ensures if lines[m].marker then Collecting(lines, m, m + 1, [], "") else NoMarker(lines, m + 1)
  {
  }

  lemma EndBlock(lines: seq<Line>, m: nat, e: nat, commentLines: seq<string>)
    requires Collecting(lines, m, e, commentLines, "") && e < |lines| && !InBlock(lines[e])
    ensures Ended(lines, m, e, e + 1, commentLines)
  {
  }

  lemma PassOne(lines: seq<Line>, m: nat, e: nat, end: nat, commentLines: seq<string>)
    requires Ended(lines, m, e, end, commentLines) && end < |lines| && lines[end].typeName == None
    ensures Ended(lines, m, e, end + 1, commentLines)
  {
  }

  /** Where the scan stands before line `i`. */
  ghost predicate Scanned(lines: seq<Line>, state: ScanState, m: nat, e: nat, i: nat, commentLines: seq<string>, name: string) {
    match state
    case Searching => name == "" && commentLines == [] && NoMarker(lines, i)
    case InComment => Collecting(lines, m, i, commentLines, name)
    case AfterComment => name == "" && Ended(lines, m, e, i, commentLines)
  }

  /** The result for a block that an annotation names. */
  method NamedBlock(lines: seq<Line>, ghost m: nat, ghost e: nat, commentLines: seq<string>, name: string)
    returns (r: Option<ResourceConfig>)
    requires Collecting(lines, m, e, commentLines, name) && name != "" && (e < |lines| ==> !InBlock(lines[e]))
    ensures r == Some(ResourceConfig(name, Formatted(commentLines))) && IsExtraction(lines, r)
  {
    var formatted := FormatCommentContent(commentLines);
    r := Some(ResourceConfig(name, formatted));
    AnnotationNames(lines, m, e, commentLines, r.value);
  }

  method ExtractFromFile(lines: seq<Line>) returns (r: Option<ResourceConfig>)
    ensures IsExtraction(lines, r)
  {
    var state := Searching;
    var commentLines: seq<string> := [];
    var resourceName := "";
    ghost var m, e := 0, 0;
    var i := 0;
    while i < |lines|
      invariant 0 <= i <= |lines|
      invariant Scanned(lines, state, m, e, i, commentLines, resourceName)
    {
      var line := lines[i];
      match state {
        case Searching =>
          SearchOne(lines, i);
          if line.marker {
            state := InComment;
            m := i;
          }
        case InComment =>
          if line.comment.Some? {
            var content := line.comment.value.content;
            if Trim(content) == "" {
              state := AfterComment;
              e := i;
              if resourceName != "" {
                r := NamedBlock(lines, m, i, commentLines, resourceName);
                return;
              }
              EndBlock(lines, m, i, commentLines);
            } else {
              CollectOne(lines, m, i, commentLines, resourceName);
              if line.comment.value.annotation.Some? {
                resourceName := line.comment.value.annotation.value;
              } else {
                commentLines := commentLines + [content];
              }
            }
          } else {
            state := AfterComment;
            e := i;
            if resourceName != "" {
              r := NamedBlock(lines, m, i, commentLines, resourceName);
              return;
            }
            EndBlock(lines, m, i, commentLines);
          }
        case AfterComment =>
          if line.typeName.Some? {
            resourceName := line.typeName.value;
            var formatted := FormatCommentContent(commentLines);
            TypeNames(lines, m, e, i, commentLines, ResourceConfig(resourceName, formatted));
            return Some(ResourceConfig(resourceName, formatted));
          }
          PassOne(lines, m, e, i, commentLines);
      }
      i := i + 1;
    }
    if resourceName != "" {
      r := NamedBlock(lines, m, i, commentLines, resourceName);
      return;
    }
    if state.InComment? {
      NothingNames(lines, m, i, commentLines);
    } else if state.AfterComment? {
      NothingNames(lines, m, e, commentLines);
    }
    r := None;
  }
}
