/** The line matcher: `pattern_in_line` with the regex that `search_file`
    builds from the escaped pattern, and the `should_print` emit rule.
    Because the pattern is escaped before the regex is built, a match is an
    occurrence of the pattern as a literal, character by character, under
    the case rule. */
module Matcher {

  /** One element of a display line: a character of the searched text, or
      the start or end of a highlighted (red) span. */
  datatype Piece = Ch(c: char) | Open | Close

  /** A plain string as display pieces, without highlighting. */
  function Text(s: string): seq<Piece>
  {
    seq(|s|, i requires 0 <= i < |s| => Ch(s[i]))
  }

  /** The characters of a display line with the highlight markers removed. */
  function Strip(p: seq<Piece>): string
  {
    if p == [] then []
    else (if p[0].Ch? then [p[0].c] else []) + Strip(p[1..])
  }

  lemma {:induction false} StripAppend(a: seq<Piece>, b: seq<Piece>)
    ensures Strip(a + b) == Strip(a) + Strip(b)
  {
    if a == [] {
      assert a + b == b;
    } else {
      var h := if a[0].Ch? then [a[0].c] else [];
      assert (a + b)[0] == a[0];
      assert (a + b)[1..] == a[1..] + b;
      StripAppend(a[1..], b);
      assert Strip(a + b) == h + (Strip(a[1..]) + Strip(b));
      assert h + (Strip(a[1..]) + Strip(b)) == (h + Strip(a[1..])) + Strip(b);
    }
  }

  lemma {:induction false} StripText(s: string)
    ensures Strip(Text(s)) == s
  {
    if s != [] {
      assert Text(s)[1..] == Text(s[1..]);
      StripText(s[1..]);
    }
  }

  /** The compiled search: the escaped pattern, whether the regex was built
      case-insensitively, and the character folding the regex engine uses
      for case-insensitive comparison. */
  datatype Matcher = Matcher(pattern: string, ignoreCase: bool, fold: char -> char)

  /** Two characters match under the matcher's case rule. */
  predicate SameChar(m: Matcher, a: char, b: char)
  {
    if m.ignoreCase then m.fold(a) == m.fold(b) else a == b
  }

  /** The pattern occurs literally in `line` starting at index `i`. */
  predicate MatchesAt(line: string, m: Matcher, i: int)
  {
    0 <= i && i + |m.pattern| <= |line| &&
    forall k :: 0 <= k < |m.pattern| ==> SameChar(m, line[i + k], m.pattern[k])
  }

  /** The line contains the pattern as a literal substring (under the case rule). */
  ghost predicate Contains(line: string, m: Matcher)
  {
    exists i :: MatchesAt(line, m, i)
  }

  /** Where the search resumes after a match at `i`: after the matched text,
      or one character further when the match is empty. */
  function Step(m: Matcher): nat
  {
    if |m.pattern| == 0 then 1 else |m.pattern|
  }

  /** The start indexes of the non-overlapping matches found left to right
      from index `pos`, as the regex's `replace_all` finds them. */
  function Occurrences(line: string, m: Matcher, pos: nat): seq<nat>
    decreases |line| + 1 - pos
  {
    if pos > |line| then []
    else if MatchesAt(line, m, pos) then [pos] + Occurrences(line, m, pos + Step(m))
    else Occurrences(line, m, pos + 1)
  }

  /** Every occurrence is a match of the pattern at or after `pos`. */
  lemma {:induction false} OccurrenceMatches(line: string, m: Matcher, pos: nat, k: nat)
    requires k < |Occurrences(line, m, pos)|
    ensures pos <= Occurrences(line, m, pos)[k] && MatchesAt(line, m, Occurrences(line, m, pos)[k])
    decreases |line| + 1 - pos
  {
    if MatchesAt(line, m, pos) {
      if k > 0 {
        OccurrenceMatches(line, m, pos + Step(m), k - 1);
      }
    } else {
      OccurrenceMatches(line, m, pos + 1, k);
    }
  }

  /** Occurrences do not overlap: each starts only after every earlier one has ended. */
  lemma {:induction false} OccurrencesApart(line: string, m: Matcher, pos: nat, i: nat, k: nat)
    requires i < k < |Occurrences(line, m, pos)|
    ensures Occurrences(line, m, pos)[i] + Step(m) <= Occurrences(line, m, pos)[k]
    decreases |line| + 1 - pos
  {
    if MatchesAt(line, m, pos) {
      if i > 0 {
        OccurrencesApart(line, m, pos + Step(m), i - 1, k - 1);
      } else {
        OccurrenceMatches(line, m, pos + Step(m), k - 1);
      }
    } else {
      OccurrencesApart(line, m, pos + 1, i, k);
    }
  }

  /** Index `j` lies strictly inside one of the spans of `len` characters
      starting at the indexes in `r`. */
  predicate InsideSpan(r: seq<nat>, j: int, len: nat)
  {
    exists k :: 0 <= k < |r| && r[k] < j < r[k] + len
  }

  /** Left-to-right search misses nothing: every match from `pos` on is one
      of the occurrences or starts inside one (overlaps it). */
  lemma {:induction false} OccurrencesMaximal(line: string, m: Matcher, pos: nat, j: int)
    requires pos <= j && MatchesAt(line, m, j)
    ensures j in Occurrences(line, m, pos) || InsideSpan(Occurrences(line, m, pos), j, |m.pattern|)
    decreases |line| + 1 - pos
  {
    var r := Occurrences(line, m, pos);
    if MatchesAt(line, m, pos) {
      var rest := Occurrences(line, m, pos + Step(m));
      assert r == [pos] + rest;
      if j == pos {
        assert r[0] == j;
      } else if j < pos + Step(m) {
        assert r[0] < j < r[0] + |m.pattern|;
      } else {
        OccurrencesMaximal(line, m, pos + Step(m), j);
        if j in rest {
          assert j in r;
        } else {
          var k :| 0 <= k < |rest| && rest[k] < j < rest[k] + |m.pattern|;
          assert r[k + 1] == rest[k];
        }
      }
    } else {
      OccurrencesMaximal(line, m, pos + 1, j);
    }
  }

  /** There is at least one occurrence exactly when the line contains the pattern. */
  lemma OccurrencesFound(line: string, m: Matcher)
    ensures Occurrences(line, m, 0) != [] <==> Contains(line, m)
  {
    var r := Occurrences(line, m, 0);
    if r != [] {
      OccurrenceMatches(line, m, 0, 0);
    }
    if Contains(line, m) {
      var j :| MatchesAt(line, m, j);
      OccurrencesMaximal(line, m, 0, j);
    }
  }

  /** Highlight positions that `Render` can place: each span of `len`
      characters lies inside the line from `pos` on, each starts after the
      previous one ends, and no two start at the same index. */
  predicate WellPlaced(line: string, pos: nat, occs: seq<nat>, len: nat)
    decreases |occs|
  {
    occs == [] ||
    (pos <= occs[0] && occs[0] + len <= |line| &&
     WellPlaced(line, occs[0] + (if len == 0 then 1 else len), occs[1..], len))
  }

  /** Placement from a later index implies placement from an earlier one. */
  lemma WellPlacedFromEarlier(line: string, early: nat, late: nat, occs: seq<nat>, len: nat)
    requires early <= late && WellPlaced(line, late, occs, len)
    ensures WellPlaced(line, early, occs, len)
  {
  }

  /** What remains after the first span is placed from the span's end. */
  lemma WellPlacedTail(line: string, occs: seq<nat>, len: nat)
    requires occs != [] && WellPlaced(line, occs[0], occs, len)
    ensures WellPlaced(line, occs[0] + len, occs[1..], len)
  {
    WellPlacedFromEarlier(line, occs[0] + len, occs[0] + (if len == 0 then 1 else len), occs[1..], len);
  }

  /** The search's occurrences are positions `Render` can place. */
  lemma {:induction false} OccurrencesWellPlaced(line: string, m: Matcher, pos: nat)
    ensures WellPlaced(line, pos, Occurrences(line, m, pos), |m.pattern|)
    decreases |line| + 1 - pos
  {
    if pos <= |line| {
      if MatchesAt(line, m, pos) {
        OccurrencesWellPlaced(line, m, pos + Step(m));
        assert ([pos] + Occurrences(line, m, pos + Step(m)))[1..] == Occurrences(line, m, pos + Step(m));
      } else {
        OccurrencesWellPlaced(line, m, pos + 1);
        var r := Occurrences(line, m, pos + 1);
        assert r != [] ==> WellPlaced(line, r[0] + Step(m), r[1..], |m.pattern|);
      }
    }
  }

  /** One highlighted span: the matched text between an opening and a closing marker. */
  function Span(s: string): seq<Piece>
  {
    [Open] + Text(s) + [Close]
  }

  /** `line[pos..]` with the `len` characters at each position of `occs`
      wrapped in highlight markers (the `replace_all` of `pattern_in_line`). */
  function Render(line: string, pos: nat, occs: seq<nat>, len: nat): seq<Piece>
    requires pos <= |line| && WellPlaced(line, pos, occs, len)
    decreases |line| - pos, |occs|
  {
    if occs != [] && occs[0] == pos then
      WellPlacedTail(line, occs, len);
      Span(line[pos..pos + len]) + Render(line, pos + len, occs[1..], len)
    else if pos < |line| then
      [Ch(line[pos])] + Render(line, pos + 1, occs, len)
    else
      []
  }

  lemma StripSpan(s: string, rest: seq<Piece>)
    ensures Strip(Span(s) + rest) == s + Strip(rest)
  {
    StripAppend(Span(s), rest);
    StripAppend([Open] + Text(s), [Close]);
    StripAppend([Open], Text(s));
    StripText(s);
  }

  /** Highlighting never drops, adds or reorders characters. */
  lemma {:induction false} StripRender(line: string, pos: nat, occs: seq<nat>, len: nat)
    requires pos <= |line| && WellPlaced(line, pos, occs, len)
    ensures Strip(Render(line, pos, occs, len)) == line[pos..]
    decreases |line| - pos, |occs|
  {
    if occs != [] && occs[0] == pos {
      WellPlacedTail(line, occs, len);
      StripRender(line, pos + len, occs[1..], len);
      StripSpan(line[pos..pos + len], Render(line, pos + len, occs[1..], len));
      assert line[pos..] == line[pos..pos + len] + line[pos + len..];
    } else if pos < |line| {
      var rest := Render(line, pos + 1, occs, len);
      StripRender(line, pos + 1, occs, len);
      assert ([Ch(line[pos])] + rest)[1..] == rest;
      assert line[pos..] == [line[pos]] + line[pos + 1..];
    }
  }

  /** The positions, counted in characters of the stripped line starting at
      `pos`, at which the marker `mark` stands in `p`. */
  function MarkPositions(p: seq<Piece>, mark: Piece, pos: nat): seq<nat>
  {
    if p == [] then []
    else if p[0] == mark then [pos] + MarkPositions(p[1..], mark, pos)
    else if p[0].Ch? then MarkPositions(p[1..], mark, pos + 1)
    else MarkPositions(p[1..], mark, pos)
  }

  /** The positions of every element of `occs` moved `len` to the right. */
  function Shifted(occs: seq<nat>, len: nat): seq<nat>
  {
    seq(|occs|, k requires 0 <= k < |occs| => occs[k] + len)
  }

  lemma {:induction false} MarkPositionsText(s: string, rest: seq<Piece>, mark: Piece, pos: nat)
    requires !mark.Ch?
    ensures MarkPositions(Text(s) + rest, mark, pos) == MarkPositions(rest, mark, pos + |s|)
  {
    if s != [] {
      assert (Text(s) + rest)[1..] == Text(s[1..]) + rest;
      MarkPositionsText(s[1..], rest, mark, pos + 1);
    } else {
      assert Text(s) + rest == rest;
    }
  }

  lemma MarkPositionsSpan(s: string, rest: seq<Piece>, pos: nat)
    ensures MarkPositions(Span(s) + rest, Open, pos) == [pos] + MarkPositions(rest, Open, pos + |s|)
    ensures MarkPositions(Span(s) + rest, Close, pos) == [pos + |s|] + MarkPositions(rest, Close, pos + |s|)
  {
    var p := Span(s) + rest;
    assert p[1..] == Text(s) + ([Close] + rest);
    assert ([Close] + rest)[1..] == rest;
    MarkPositionsText(s, [Close] + rest, Open, pos);
    MarkPositionsText(s, [Close] + rest, Close, pos);
  }

  /** The highlight of a rendered line opens exactly at the given positions. */
  lemma {:induction false} RenderOpens(line: string, pos: nat, occs: seq<nat>, len: nat)
    requires pos <= |line| && WellPlaced(line, pos, occs, len)
    ensures MarkPositions(Render(line, pos, occs, len), Open, pos) == occs
    decreases |line| - pos, |occs|
  {
    if occs != [] && occs[0] == pos {
      WellPlacedTail(line, occs, len);
      RenderOpens(line, pos + len, occs[1..], len);
      MarkPositionsSpan(line[pos..pos + len], Render(line, pos + len, occs[1..], len), pos);
      assert occs == [pos] + occs[1..];
    } else if pos < |line| {
      var rest := Render(line, pos + 1, occs, len);
      RenderOpens(line, pos + 1, occs, len);
      assert ([Ch(line[pos])] + rest)[1..] == rest;
    }
  }

  /** Each highlight of a rendered line closes `len` characters after it opens. */
  lemma {:induction false} RenderCloses(line: string, pos: nat, occs: seq<nat>, len: nat)
    requires pos <= |line| && WellPlaced(line, pos, occs, len)
    ensures MarkPositions(Render(line, pos, occs, len), Close, pos) == Shifted(occs, len)
    decreases |line| - pos, |occs|
  {
    if occs != [] && occs[0] == pos {
      WellPlacedTail(line, occs, len);
      RenderCloses(line, pos + len, occs[1..], len);
      MarkPositionsSpan(line[pos..pos + len], Render(line, pos + len, occs[1..], len), pos);
      assert Shifted(occs, len) == [pos + len] + Shifted(occs[1..], len);
    } else if pos < |line| {
      var rest := Render(line, pos + 1, occs, len);
      RenderCloses(line, pos + 1, occs, len);
      assert ([Ch(line[pos])] + rest)[1..] == rest;
    }
  }

  /** The markers of `p` alternate `Open`, `Close`, `Open`, …: every
      highlight that opens closes before the next one opens, and none is
      left open at the end. `open` says whether a highlight is open before `p`. */
  predicate Paired(p: seq<Piece>, open: bool)
  {
    if p == [] then !open
    else match p[0]
      case Ch(_) => Paired(p[1..], open)
      case Open => !open && Paired(p[1..], true)
      case Close => open && Paired(p[1..], false)
  }

  lemma {:induction false} PairedText(s: string, rest: seq<Piece>, open: bool)
    ensures Paired(Text(s) + rest, open) == Paired(rest, open)
  {
    if s != [] {
      assert (Text(s) + rest)[1..] == Text(s[1..]) + rest;
      PairedText(s[1..], rest, open);
    } else {
      assert Text(s) + rest == rest;
    }
  }

  lemma PairedSpan(s: string, rest: seq<Piece>)
    ensures Paired(Span(s) + rest, false) == Paired(rest, false)
  {
    var p := Span(s) + rest;
    assert p[1..] == Text(s) + ([Close] + rest);
    assert ([Close] + rest)[1..] == rest;
    PairedText(s, [Close] + rest, true);
  }

  /** Every occurrence of a rendered line is wrapped in its own highlight. */
  lemma {:induction false} RenderPaired(line: string, pos: nat, occs: seq<nat>, len: nat)
    requires pos <= |line| && WellPlaced(line, pos, occs, len)
    ensures Paired(Render(line, pos, occs, len), false)
    decreases |line| - pos, |occs|
  {
    if occs != [] && occs[0] == pos {
      WellPlacedTail(line, occs, len);
      RenderPaired(line, pos + len, occs[1..], len);
      PairedSpan(line[pos..pos + len], Render(line, pos + len, occs[1..], len));
    } else if pos < |line| {
      var rest := Render(line, pos + 1, occs, len);
      RenderPaired(line, pos + 1, occs, len);
      assert ([Ch(line[pos])] + rest)[1..] == rest;
    }
  }

  /** What `pattern_in_line` returns: whether the pattern was found, and
      the line to display. */
  datatype LineMatch = LineMatch(found: bool, display: seq<Piece>)

  /** `pattern_in_line`: a line without a match, or any line when colouring
      is off, is returned unchanged; otherwise every non-overlapping match,
      found left to right, is wrapped in a highlight. */
  function PatternInLine(m: Matcher, colored: bool, line: string): (r: LineMatch)
    ensures r.found <==> Contains(line, m)
    ensures !r.found || !colored ==> r.display == Text(line)
    ensures Strip(r.display) == line
    ensures Paired(r.display, false)
    ensures r.found && colored ==>
              var opens := MarkPositions(r.display, Open, 0);
              opens == Occurrences(line, m, 0) && |opens| >= 1 &&
              MarkPositions(r.display, Close, 0) == Shifted(opens, |m.pattern|)
  {
    var occs := Occurrences(line, m, 0);
    OccurrencesFound(line, m);
    StripText(line);
    PairedText(line, [], false);
    assert Text(line) + [] == Text(line);
    if occs == [] then LineMatch(false, Text(line))
    else if !colored then LineMatch(true, Text(line))
    else
      OccurrencesWellPlaced(line, m, 0);
      StripRender(line, 0, occs, |m.pattern|);
      RenderOpens(line, 0, occs, |m.pattern|);
      RenderCloses(line, 0, occs, |m.pattern|);
      RenderPaired(line, 0, occs, |m.pattern|);
      LineMatch(true, Render(line, 0, occs, |m.pattern|))
  }

  /** `should_print`: a line is emitted when it matched, or, under invert,
      when it did not. */
  function ShouldPrint(invert: bool, found: bool): (r: bool)
    ensures r <==> (invert != found)
  {
    if invert then !found else found
  }

  /** ASCII lower-casing: one instance of a case-folding function. */
  function AsciiFold(c: char): char
  {
    if 'A' <= c <= 'Z' then (c as int + 32) as char else c
  }

  /** Pattern "cat" in "concatenate", case-sensitive and coloured: found,
      with one highlight opening before index 3 and closing before index 6. */
  lemma CatInConcatenate()
    ensures var r := PatternInLine(Matcher("cat", false, AsciiFold), true, "concatenate");
            r.found && MarkPositions(r.display, Open, 0) == [3] &&
            MarkPositions(r.display, Close, 0) == [6]
  {
    var m := Matcher("cat", false, AsciiFold);
    var line := "concatenate";
    assert MatchesAt(line, m, 3);
    assert m.pattern[0] == 'c' && m.pattern[1] == 'a';
    assert line[1] != 'a' && line[1] != 'c' && line[2] != 'c';
    assert line[6] != 'c' && line[7] != 'c' && line[8] != 'c';
    assert !MatchesAt(line, m, 0) && !MatchesAt(line, m, 1) && !MatchesAt(line, m, 2);
    assert !MatchesAt(line, m, 6);
    assert !MatchesAt(line, m, 7);
    assert !MatchesAt(line, m, 8);
    assert Occurrences(line, m, 9) == [];
    assert Occurrences(line, m, 7) == [];
    assert Occurrences(line, m, 6) == [];
    assert Occurrences(line, m, 3) == [3];
    assert Occurrences(line, m, 1) == [3];
    assert Occurrences(line, m, 0) == [3];
  }
}
