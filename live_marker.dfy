/** Recognising the live-feedback marker in a submitted notebook.

    A marker line is `#`, optional whitespace, `LIVE:`, optional whitespace,
    an assignment GUID, and nothing but whitespace up to the end of the line
    (this covers the pattern's optional `\r` and `\n`, which are whitespace
    too). Letters match in either case. The notebook's assignment id is the
    GUID of the first marker line, taking cells in order and, within a cell,
    the lines of its source split on `"\n"` in order. */
module LiveMarker {
  import opened Common

  predicate IsHex(c: char)
  {
    '0' <= c <= '9' || 'a' <= c <= 'f' || 'A' <= c <= 'F'
  }

  /** The character allowed at position `i` of
      `[a-f0-9]{8}-[a-f0-9]{4}-[1-5][a-f0-9]{3}-[89ab][a-f0-9]{3}-[a-f0-9]{12}`,
      matched case-insensitively. */
  predicate GuidCharAt(i: int, c: char)
  {
    if i == 8 || i == 13 || i == 18 || i == 23 then c == '-'
    else if i == 14 then '1' <= c <= '5'
    else if i == 19 then c in "89abAB"
    else IsHex(c)
  }

  predicate IsGuid(g: string)
  {
    |g| == 36 && forall i :: 0 <= i < 36 ==> GuidCharAt(i, g[i])
  }

  /** `LIVE:` under case-insensitive matching. Besides `I` and `i`, Python's
      case folding lets the dotted capital I (U+0130) and the dotless small i
      (U+0131) stand for the `I`. */
  predicate IsLiveTag(t: string)
  {
    |t| == 5 && t[0] in "Ll" && t[1] in "Ii\U{130}\U{131}" && t[2] in "Vv" && t[3] in "Ee" && t[4] == ':'
  }

  /** The first position at or after `i` that does not hold whitespace. */
  function SkipSpaces(s: string, i: nat): (j: nat)
    requires i <= |s|
    ensures i <= j <= |s|
    ensures forall k :: i <= k < j ==> IsSpace(s[k])
    ensures j == |s| || !IsSpace(s[j])
    decreases |s| - i
  {
    if i == |s| || !IsSpace(s[i]) then i else SkipSpaces(s, i + 1)
  }

  /** `_check_line` with the pattern of `_create_pattern`: the GUID of a
      marker line, or `None`. The pattern is anchored at the start, so the
      `#` must be the line's first character. */
  function CheckLine(line: string): (r: Option<string>)
    ensures r.Some? ==> IsGuid(r.value)
  {
    if |line| == 0 || line[0] != '#' then None
    else
      var j := SkipSpaces(line, 1);
      if j + 5 > |line| || !IsLiveTag(line[j..j + 5]) then None
      else
        var k := SkipSpaces(line, j + 5);
        if k + 36 > |line| || !IsGuid(line[k..k + 36]) || !AllSpace(line[k + 36..]) then None
        else Some(line[k..k + 36])
  }

  /** The grammar of a marker line, part by part. */
  datatype MarkerLine = MarkerLine(lead: string, tag: string, gap: string, guid: string, trail: string)
  {
    predicate WellFormed()
    {
      AllSpace(lead) && IsLiveTag(tag) && AllSpace(gap) && IsGuid(guid) && AllSpace(trail)
    }

    function Render(): string
    {
      "#" + lead + tag + gap + guid + trail
    }
  }

  lemma SkipSpacesOver(s: string, i: nat, n: nat)
    requires i + n < |s|
    requires forall k :: i <= k < i + n ==> IsSpace(s[k])
    requires !IsSpace(s[i + n])
    ensures SkipSpaces(s, i) == i + n
  {
  }

  /** Skipping whitespace from the start of a whitespace part that is
      followed by a non-space stops right after the part. */
  lemma SkipSpacesOverPart(s: string, i: nat, part: string)
    requires i + |part| < |s| && s[i..i + |part|] == part
    requires AllSpace(part) && !IsSpace(s[i + |part|])
    ensures SkipSpaces(s, i) == i + |part|
  {
    assert forall k :: i <= k < i + |part| ==> s[k] == part[k - i];
    SkipSpacesOver(s, i, |part|);
  }

  /** Where the parts of a marker line sit in its rendering. */
  lemma RenderSlices(m: MarkerLine)
    requires |m.tag| == 5
    ensures var line := m.Render();
            var a := 1 + |m.lead|;
            var b := a + 5 + |m.gap|;
            |line| == b + |m.guid| + |m.trail| && line[0] == '#' &&
            line[1..a] == m.lead && line[a..a + |m.tag|] == m.tag &&
            line[a + |m.tag|..a + |m.tag| + |m.gap|] == m.gap &&
            line[a + |m.tag| + |m.gap|..a + |m.tag| + |m.gap| + |m.guid|] == m.guid &&
            line[a + |m.tag| + |m.gap| + |m.guid|..] == m.trail
  {
    var line := m.Render();
    assert line == (((("#" + m.lead) + m.tag) + m.gap) + m.guid) + m.trail;
  }

  /** Every well-formed marker line is recognised, and its GUID is returned. */
  lemma CheckLineAccepts(m: MarkerLine)
    requires m.WellFormed()
    ensures CheckLine(m.Render()) == Some(m.guid)
  {
    var line := m.Render();
    var a := 1 + |m.lead|;
    var b := a + 5 + |m.gap|;
    RenderSlices(m);
    assert line[a] == m.tag[0];
    SkipSpacesOverPart(line, 1, m.lead);
    assert line[b] == m.guid[0] && GuidCharAt(0, m.guid[0]);
    SkipSpacesOverPart(line, a + 5, m.gap);
  }

  lemma AllSpaceSlice(s: string, i: nat, j: nat)
    requires i <= j <= |s|
    requires forall k :: i <= k < j ==> IsSpace(s[k])
    ensures AllSpace(s[i..j])
  {
  }

  /** Cutting a line at four positions after its first character and
      rendering the pieces gives the line back. */
  lemma RenderCuts(line: string, j: nat, k: nat)
    requires 1 <= j && j + 5 <= k && k + 36 <= |line| && line[0] == '#'
    ensures MarkerLine(line[1..j], line[j..j + 5], line[j + 5..k], line[k..k + 36], line[k + 36..]).Render() == line
  {
  }

  /** Every line `CheckLine` accepts splits into the parts of a well-formed
      marker line, and the returned GUID is its GUID part. */
  lemma CheckLineParts(line: string) returns (m: MarkerLine)
    requires CheckLine(line).Some?
    ensures m.WellFormed() && m.Render() == line && m.guid == CheckLine(line).value
  {
    var j := SkipSpaces(line, 1);
    var k := SkipSpaces(line, j + 5);
    m := MarkerLine(line[1..j], line[j..j + 5], line[j + 5..k], line[k..k + 36], line[k + 36..]);
    AllSpaceSlice(line, 1, j);
    AllSpaceSlice(line, j + 5, k);
    RenderCuts(line, j, k);
  }

  /** `CheckLine` returns a GUID exactly when the line is a well-formed marker
      line carrying that GUID. */
  lemma CheckLineMatchesGrammar(line: string, g: string)
    ensures CheckLine(line) == Some(g) <==>
            exists m: MarkerLine :: m.WellFormed() && m.Render() == line && m.guid == g
  {
    if CheckLine(line) == Some(g) {
      var m := CheckLineParts(line);
    }
    if exists m: MarkerLine :: m.WellFormed() && m.Render() == line && m.guid == g {
      var m: MarkerLine :| m.WellFormed() && m.Render() == line && m.guid == g;
      CheckLineAccepts(m);
    }
  }

  const ExampleGuid := "333e2069-612e-4e0c-a4ac-e6ec1eaa44f0"

  lemma ExampleGuidIsGuid()
    ensures IsGuid(ExampleGuid)
  {
  }

  lemma ExampleRender()
    ensures MarkerLine(" ", "LIVE:", " ", ExampleGuid, "").Render() == "# LIVE: " + ExampleGuid
  {
  }

  /** The marker `# LIVE: 333e2069-612e-4e0c-a4ac-e6ec1eaa44f0` is recognised. */
  lemma CheckLineExample()
    ensures CheckLine("# LIVE: " + ExampleGuid) == Some(ExampleGuid)
  {
    ExampleGuidIsGuid();
    ExampleRender();
    CheckLineAccepts(MarkerLine(" ", "LIVE:", " ", ExampleGuid, ""));
  }

  /** `str.split("\n")`: the pieces between newlines, always at least one. */
  function SplitLines(s: string): (r: seq<string>)
    ensures |r| >= 1
  {
    if s == [] then [""]
    else
      var rest := SplitLines(s[1..]);
      if s[0] == '\n' then [""] + rest else [[s[0]] + rest[0]] + rest[1..]
  }

  /** `"\n".join(parts)`. */
  function JoinLines(parts: seq<string>): string
    requires |parts| >= 1
  {
    if |parts| == 1 then parts[0] else parts[0] + "\n" + JoinLines(parts[1..])
  }

  /** Splitting loses nothing: joining the pieces gives back the source. */
  lemma {:induction false} JoinSplitLines(s: string)
    ensures JoinLines(SplitLines(s)) == s
  {
    if s != [] {
      var rest := SplitLines(s[1..]);
      JoinSplitLines(s[1..]);
      if s[0] == '\n' {
        assert ([""] + rest)[1..] == rest;
      } else if |rest| > 1 {
        var parts := [[s[0]] + rest[0]] + rest[1..];
        assert parts[1..] == rest[1..];
        assert JoinLines(rest) == rest[0] + "\n" + JoinLines(rest[1..]);
      }
    }
  }

  /** No piece of a split contains the separator. */
  lemma {:induction false} SplitLinesHaveNoNewline(s: string)
    ensures forall i :: 0 <= i < |SplitLines(s)| ==> '\n' !in SplitLines(s)[i]
  {
    if s != [] {
      SplitLinesHaveNoNewline(s[1..]);
      var rest := SplitLines(s[1..]);
      if s[0] != '\n' {
        var parts := [[s[0]] + rest[0]] + rest[1..];
        assert '\n' !in rest[0];
        assert '\n' !in parts[0];
        forall i | 1 <= i < |parts| ensures '\n' !in parts[i] {
          assert parts[i] == rest[i];
        }
      } else {
        forall i | 1 <= i < |SplitLines(s)| ensures '\n' !in SplitLines(s)[i] {
          assert SplitLines(s)[i] == rest[i - 1];
        }
      }
    }
  }

  /** The GUIDs of the marker lines among `lines`, in order. */
  function LineIds(lines: seq<string>): seq<string>
  {
    if lines == [] then []
    else
      (match CheckLine(lines[0]) case Some(g) => [g] case None => []) + LineIds(lines[1..])
  }

  /** The `live_ids` comprehension: the GUIDs of all marker lines, cell by
      cell and line by line. */
  function LiveIds(cells: seq<string>): seq<string>
  {
    if cells == [] then [] else LineIds(SplitLines(cells[0])) + LiveIds(cells[1..])
  }

  /** `live_ids[0]` when there is one. */
  function SelectLiveId(cells: seq<string>): Option<string>
  {
    var ids := LiveIds(cells);
    if |ids| == 0 then None else Some(ids[0])
  }

  lemma {:induction false} LineIdsEmpty(lines: seq<string>)
    ensures LineIds(lines) == [] <==> forall l :: 0 <= l < |lines| ==> CheckLine(lines[l]).None?
  {
    if lines != [] {
      LineIdsEmpty(lines[1..]);
      assert forall l :: 1 <= l < |lines| ==> lines[l] == lines[1..][l - 1];
    }
  }

  /** No line of any cell is a marker line. */
  ghost predicate NoMarker(cells: seq<string>)
  {
    forall c, l :: 0 <= c < |cells| && 0 <= l < |SplitLines(cells[c])| ==>
                   CheckLine(SplitLines(cells[c])[l]).None?
  }

  /** No id is found exactly when no line of any cell is a marker line. */
  lemma {:induction false} LiveIdsEmpty(cells: seq<string>)
    ensures LiveIds(cells) == [] <==> NoMarker(cells)
  {
    if cells != [] {
      var head := SplitLines(cells[0]);
      var tail := cells[1..];
      LineIdsEmpty(head);
      LiveIdsEmpty(tail);
      assert LiveIds(cells) == LineIds(head) + LiveIds(tail);
      if NoMarker(cells) {
        forall l | 0 <= l < |head| ensures CheckLine(head[l]).None? {
          assert CheckLine(SplitLines(cells[0])[l]).None?;
        }
        forall c, l | 0 <= c < |tail| && 0 <= l < |SplitLines(tail[c])|
          ensures CheckLine(SplitLines(tail[c])[l]).None?
        {
          assert tail[c] == cells[c + 1];
        }
      }
      if LiveIds(cells) == [] {
        forall c, l | 0 <= c < |cells| && 0 <= l < |SplitLines(cells[c])|
          ensures CheckLine(SplitLines(cells[c])[l]).None?
        {
          if c > 0 {
            assert cells[c] == tail[c - 1];
          }
        }
      }
    }
  }

  lemma {:induction false} LineIdsFirst(lines: seq<string>, l: nat)
    requires l < |lines| && CheckLine(lines[l]).Some?
    requires forall l' :: 0 <= l' < l ==> CheckLine(lines[l']).None?
    ensures LineIds(lines) != [] && LineIds(lines)[0] == CheckLine(lines[l]).value
  {
    if l > 0 {
      assert lines[l] == lines[1..][l - 1];
      assert forall l' :: 0 <= l' < l - 1 ==> lines[1..][l'] == lines[l' + 1];
      LineIdsFirst(lines[1..], l - 1);
    }
  }

  /** When no line of the first `c` cells is a marker line, the first cell
      contributes no id and none of the next `c - 1` cells has a marker line. */
  lemma NoMarkerSplit(cells: seq<string>, c: nat)
    requires 0 < c <= |cells| && NoMarker(cells[..c])
    ensures LineIds(SplitLines(cells[0])) == []
    ensures NoMarker(cells[1..][..c - 1])
  {
    var front := cells[..c];
    var head := SplitLines(cells[0]);
    LineIdsEmpty(head);
    forall l | 0 <= l < |head| ensures CheckLine(head[l]).None? {
      assert front[0] == cells[0];
      assert CheckLine(SplitLines(front[0])[l]).None?;
    }
    var rest := cells[1..][..c - 1];
    forall c', l | 0 <= c' < |rest| && 0 <= l < |SplitLines(rest[c'])|
      ensures CheckLine(SplitLines(rest[c'])[l]).None?
    {
      assert rest[c'] == front[c' + 1];
    }
  }

  /** Cells without a marker line in front contribute no id. */
  lemma {:induction false} LiveIdsSkip(cells: seq<string>, c: nat)
    requires c <= |cells| && NoMarker(cells[..c])
    ensures LiveIds(cells) == LiveIds(cells[c..])
  {
    if c > 0 {
      NoMarkerSplit(cells, c);
      LiveIdsSkip(cells[1..], c - 1);
      assert cells[1..][c - 1..] == cells[c..];
    }
  }

  /** The selected id is the GUID of the first marker line: no line of an
      earlier cell and no earlier line of the same cell is a marker line. */
  lemma SelectLiveIdIsFirstMarker(cells: seq<string>, c: nat, l: nat)
    requires c < |cells| && l < |SplitLines(cells[c])|
    requires CheckLine(SplitLines(cells[c])[l]).Some?
    requires NoMarker(cells[..c])
    requires forall l' :: 0 <= l' < l ==> CheckLine(SplitLines(cells[c])[l']).None?
    ensures SelectLiveId(cells) == CheckLine(SplitLines(cells[c])[l])
  {
    LiveIdsSkip(cells, c);
    var lines := SplitLines(cells[c]);
    LineIdsFirst(lines, l);
    var rest := cells[c..];
    assert rest[0] == cells[c];
    assert LiveIds(rest) == LineIds(lines) + LiveIds(rest[1..]);
  }

  /** Whatever is selected is a GUID. */
  lemma {:induction false} LiveIdsAreGuids(cells: seq<string>)
    ensures forall i :: 0 <= i < |LiveIds(cells)| ==> IsGuid(LiveIds(cells)[i])
  {
    if cells != [] {
      LineIdsAreGuids(SplitLines(cells[0]));
      LiveIdsAreGuids(cells[1..]);
    }
  }

  lemma {:induction false} LineIdsAreGuids(lines: seq<string>)
    ensures forall i :: 0 <= i < |LineIds(lines)| ==> IsGuid(LineIds(lines)[i])
  {
    if lines != [] {
      LineIdsAreGuids(lines[1..]);
    }
  }
}
