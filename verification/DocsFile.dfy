/** The generated part of the documentation file: everything behind the line with the marker. */
module DocsFile {
  import opened Text

  const MARKER := "## Generated Data Below"

  datatype Error = MarkerNotFound

  /** The lines through the first one with the marker, if there is one. */
  function ThroughMarker(lines: seq<string>): Option<seq<string>> {
    if lines == [] then None
    else if Contains(lines[0], MARKER) then Some([lines[0]])
    else
      match ThroughMarker(lines[1..])
      case None => None
      case Some(rest) => Some([lines[0]] + rest)
  }

  function Updated(content: string, generated: string): Result<string, Error> {
    match ThroughMarker(Split(content, '\n'))
    case None => Err(MarkerNotFound)
    case Some(before) => Ok(Join(before, '\n') + "\n\n" + generated)
  }

  method UpdateDocsFile(content: string, generated: string) returns (r: Result<string, Error>)
    ensures r == Updated(content, generated)
  {
    var lines := Split(content, '\n');
    var beforeMarker: seq<string> := [];
    var markerFound := false;
    var i := 0;
    assert lines[0..] == lines;
    PrependNothing(ThroughMarker(lines));
    while i < |lines| && !markerFound
      invariant 0 <= i <= |lines| && beforeMarker == lines[..i]
      invariant if markerFound then ThroughMarker(lines) == Some(beforeMarker)
                else ThroughMarker(lines) == Prepend(beforeMarker, ThroughMarker(lines[i..]))
    {
      PrependSnoc(beforeMarker, lines[i], ThroughMarker(lines[i + 1..]));
      assert lines[i..][1..] == lines[i + 1..];
      beforeMarker := beforeMarker + [lines[i]];
      if Contains(lines[i], MARKER) {
        markerFound := true;
      }
      i := i + 1;
    }
    if !markerFound {
      return Err(MarkerNotFound);
    }
    r := Ok(Join(beforeMarker, '\n') + "\n\n" + generated);
  }

  ghost function Prepend(lines: seq<string>, rest: Option<seq<string>>): Option<seq<string>> {
    match rest
    case None => None
    case Some(more) => Some(lines + more)
  }

  lemma PrependNothing(rest: Option<seq<string>>)
    ensures Prepend([], rest) == rest
  {
    if rest.Some? {
      assert [] + rest.value == rest.value;
    }
  }

  lemma PrependSnoc(lines: seq<string>, line: string, rest: Option<seq<string>>)
    ensures Prepend(lines, Prepend([line], rest)) == Prepend(lines + [line], rest)
  {
    if rest.Some? {
      assert lines + ([line] + rest.value) == lines + [line] + rest.value;
    }
  }

  // ---- the file as text ----

  predicate LineEnd(s: string, e: nat) {
    e == |s| || (e < |s| && s[e] == '\n')
  }

  /** `e` is the first line end with the marker somewhere before it. */
  ghost predicate MarkerEnd(s: string, e: nat) {
    e <= |s| && LineEnd(s, e) && Contains(s[..e], MARKER)
    && forall d :: 0 <= d < e && LineEnd(s, d) ==> !Contains(s[..d], MARKER)
  }

  lemma NoMarkerBefore(head: string, rest: string, d: nat)
    requires '\n' !in head && !Contains(head, MARKER) && d <= |head| + 1 + |rest| && LineEnd(head + "\n" + rest, d)
    requires d > |head| ==> !Contains(rest[..d - |head| - 1], MARKER)
    ensures !Contains((head + "\n" + rest)[..d], MARKER)
  {
    var s := head + "\n" + rest;
    if d > |head| {
      var front := rest[..d - |head| - 1];
      assert s[..d] == head + ['\n'] + front;
      if Contains(s[..d], MARKER) {
        ContainsSplit(head, '\n', front, MARKER);
      }
    } else {
      assert forall k :: 0 <= k < |head| ==> s[k] == head[k];
      assert s[..d] == head;
    }
  }

  lemma MarkerEndIn(head: string, rest: string, e: nat)
    requires '\n' !in head && !Contains(head, MARKER) && MarkerEnd(rest, e)
    ensures MarkerEnd(head + "\n" + rest, |head| + 1 + e)
  {
    var s := head + "\n" + rest;
    ContainsIn(head + "\n", rest[..e], [], MARKER);
    assert s[..|head| + 1 + e] == head + "\n" + rest[..e] + [];
    forall d | 0 <= d < |head| + 1 + e && LineEnd(s, d) ensures !Contains(s[..d], MARKER) {
      assert d > |head| ==> LineEnd(rest, d - |head| - 1);
      NoMarkerBefore(head, rest, d);
    }
  }

  /** `before` is the text of `s` through its first line with the marker. */
  ghost predicate KeptThrough(s: string, before: Option<seq<string>>) {
    match before
    case None => !Contains(s, MARKER)
    case Some(lines) =>
      var text := Join(lines, '\n');
      lines != [] && |text| <= |s| && MarkerEnd(s, |text|) && text == s[..|text|]
  }

  lemma KeptThroughCons(head: string, rest: string, before: Option<seq<string>>)
    requires '\n' !in head && !Contains(head, MARKER) && KeptThrough(rest, before)
    ensures KeptThrough(head + "\n" + rest, Prepend([head], before))
  {
    var s := head + "\n" + rest;
    match before
    case None =>
      if Contains(s, MARKER) {
        ContainsSplit(head, '\n', rest, MARKER);
      }
    case Some(lines) =>
      var text := Join(lines, '\n');
      JoinCons(head, lines, '\n');
      MarkerEndIn(head, rest, |text|);
      assert s[..|head| + 1 + |text|] == head + ['\n'] + text;
  }

  /** Splitting into lines, stopping at the marker and rejoining keeps the file, byte for byte,
      through the end of the first line with the marker; without a marker it fails. */
  lemma {:induction false} KeepsThroughMarkerLine(s: string)
    ensures KeptThrough(s, ThroughMarker(Split(s, '\n')))
    decreases |s|
  {
    var i := IndexOf(s, '\n');
    var head := s[..i];
    if i == |s| {
      assert s[..i] == s;
      assert Split(s, '\n') == [s];
      if Contains(s, MARKER) {
        OneLine(s, i);
      }
    } else {
      var rest := s[i + 1..];
      assert s == head + "\n" + rest;
      assert Split(s, '\n')[1..] == Split(rest, '\n');
      if Contains(head, MARKER) {
        OneLine(s, i);
      } else {
        KeepsThroughMarkerLine(rest);
        KeptThroughCons(head, rest, ThroughMarker(Split(rest, '\n')));
      }
    }
  }

  lemma OneLine(s: string, i: nat)
    requires i <= |s| && LineEnd(s, i) && (forall k :: 0 <= k < i ==> s[k] != '\n') && Contains(s[..i], MARKER)
    ensures MarkerEnd(s, i)
  {
  }

  /** A marker end stays one when what follows its line is exchanged. */
  lemma MarkerEndStays(s: string, e: nat, tail: string)
    requires MarkerEnd(s, e)
    ensures MarkerEnd(s[..e] + "\n" + tail, e)
  {
    var t := s[..e] + "\n" + tail;
    assert t[..e] == s[..e];
    forall d | 0 <= d < e && LineEnd(t, d) ensures !Contains(t[..d], MARKER) {
      assert LineEnd(s, d) && t[..d] == s[..d];
    }
  }

  /** An update keeps the text through the marker line and puts the generated text behind it; it
      fails exactly when there is no marker. */
  lemma UpdatedIs(content: string, generated: string)
    ensures match Updated(content, generated)
            case Err(_) => !Contains(content, "## Generated Data Below")
            case Ok(result) => exists e: nat :: MarkerEnd(content, e) && result == content[..e] + "\n\n" + generated
  {
    KeepsThroughMarkerLine(content);
  }

  lemma MarkerEndUnique(s: string, d: nat, e: nat)
    requires MarkerEnd(s, d) && MarkerEnd(s, e)
    ensures d == e
  {
  }

  lemma UpdatedAt(content: string, e: nat, generated: string)
    requires MarkerEnd(content, e)
    ensures Updated(content, generated) == Ok(content[..e] + "\n\n" + generated)
  {
    UpdatedIs(content, generated);
    ContainsIn([], content[..e], content[e..], MARKER);
    assert [] + content[..e] + content[e..] == content;
    var result := Updated(content, generated).value;
    var d: nat :| MarkerEnd(content, d) && result == content[..d] + "\n\n" + generated;
    MarkerEndUnique(content, d, e);
  }

  /** Regenerating is last writer wins: an update after an update leaves no trace of the first. */
  lemma LastWriterWins(content: string, a: string, b: string)
    requires Updated(content, a).Ok?
    ensures Updated(Updated(content, a).value, b) == Updated(content, b)
  {
    UpdatedIs(content, a);
    var once := Updated(content, a).value;
    var e: nat :| MarkerEnd(content, e) && once == content[..e] + "\n\n" + a;
    assert once == content[..e] + "\n" + ("\n" + a);
    MarkerEndStays(content, e, "\n" + a);
    UpdatedAt(content, e, b);
    UpdatedAt(once, e, b);
    assert once[..e] == content[..e];
  }
}
