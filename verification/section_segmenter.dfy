/** The line-based section segmenter: a line whose stripped, lowered form
    starts with one of the known headers as a whole word opens a new section;
    every other line is content of the section that is open. A section's
    value is its content lines joined with newlines and stripped; a section
    without content lines gets no entry, and a later block overwrites an
    earlier one of the same name. */
module SectionSegmenter {
  import opened Wrappers
  import opened Text
  import opened Collections

  /** The headers, in the order they are tried. */
  const SectionHeaders: seq<string> := [
    "personal information", "summary", "objective", "profile",
    "work experience", "professional experience", "experience",
    "education", "academic background",
    "skills", "technical skills",
    "projects", "internships",
    "certifications", "licenses",
    "awards", "achievements",
    "publications", "languages"
  ]

  /** The name of the section open before the first header. */
  const Unknown: string := "unknown"

  lemma UnknownIsNoHeader()
    ensures Unknown !in SectionHeaders
  {
  }

  /** The first of `hs` that `re.match(r'\bh\b', s)` accepts, i.e. that occurs
      as a whole word at the very start of `s`. */
  function FirstHeaderIn(s: string, hs: seq<string>): (r: Option<string>)
    ensures r.Some? ==> r.value in hs && WholeWordAt(s, r.value, 0)
    ensures r.Some? ==> exists i :: 0 <= i < |hs| && hs[i] == r.value && forall j :: 0 <= j < i ==> !WholeWordAt(s, hs[j], 0)
    ensures r.None? <==> forall j :: 0 <= j < |hs| ==> !WholeWordAt(s, hs[j], 0)
  {
    if |hs| == 0 then None
    else if WholeWordAt(s, hs[0], 0) then Some(hs[0])
    else
      var r := FirstHeaderIn(s, hs[1..]);
      assert r.Some? ==> exists i :: 0 <= i < |hs| && hs[i] == r.value && forall j :: 0 <= j < i ==> !WholeWordAt(s, hs[j], 0) by {
        if r.Some? {
          var i :| 0 <= i < |hs[1..]| && hs[1..][i] == r.value && forall j :: 0 <= j < i ==> !WholeWordAt(s, hs[1..][j], 0);
          assert forall j :: 0 <= j < i + 1 ==> !WholeWordAt(s, hs[j], 0) by {
            forall j | 0 <= j < i + 1 ensures !WholeWordAt(s, hs[j], 0) {
              if j > 0 {
                assert hs[j] == hs[1..][j - 1];
              }
            }
          }
        }
      }
      assert r.None? <==> forall j :: 0 <= j < |hs| ==> !WholeWordAt(s, hs[j], 0) by {
        if r.None? {
          forall j | 0 <= j < |hs| ensures !WholeWordAt(s, hs[j], 0) {
            if j > 0 {
              assert hs[j] == hs[1..][j - 1];
            }
          }
        } else {
          assert WholeWordAt(s, r.value, 0);
        }
      }
      r
  }

  /** The header a line opens, if any. */
  function HeaderOf(line: string): (r: Option<string>)
    ensures r.Some? ==> r.value in SectionHeaders && r.value != Unknown
  {
    UnknownIsNoHeader();
    FirstHeaderIn(Lower(Strip(line)), SectionHeaders)
  }

  // ---------------------------------------------------------------------
  // The loop, as the source runs it
  // ---------------------------------------------------------------------

  /** `sections`, `current_section` and `buffer`. */
  datatype State = State(sections: map<string, string>, current: string, buffer: seq<string>)

  /** `if buffer: sections[current_section] = '\n'.join(buffer).strip()`. */
  function Flush(sections: map<string, string>, name: string, body: seq<string>): map<string, string> {
    if |body| > 0 then sections[name := Strip(Join(body, "\n"))] else sections
  }

  /** One iteration of the loop over the lines; `hd` recognises header lines
      (the loop and the block description below hold for any recogniser). */
  function Step(hd: string -> Option<string>, st: State, line: string): State {
    match hd(line)
    case Some(h) => State(Flush(st.sections, st.current, st.buffer), h, [])
    case None => st.(buffer := st.buffer + [line])
  }

  function Run(hd: string -> Option<string>, st: State, lines: seq<string>): State
    decreases |lines|
  {
    if |lines| == 0 then st else Run(hd, Step(hd, st, lines[0]), lines[1..])
  }

  /** The loop over the lines and the final flush. */
  function Segment(hd: string -> Option<string>, lines: seq<string>): map<string, string> {
    var st := Run(hd, State(map[], Unknown, []), lines);
    Flush(st.sections, st.current, st.buffer)
  }

  /** `segment_sections`. */
  function SegmentSections(text: string): map<string, string> {
    Segment(HeaderOf, Split(text, '\n'))
  }

  // ---------------------------------------------------------------------
  // The same result, described by blocks
  // ---------------------------------------------------------------------

  /** A section name and the content lines that follow its header. */
  datatype Block = Block(name: string, body: seq<string>)

  /** The index of the first header line (`|lines|` when there is none). */
  function FirstHeaderLine(hd: string -> Option<string>, lines: seq<string>): (k: nat)
    ensures k <= |lines|
    ensures forall i :: 0 <= i < k ==> hd(lines[i]).None?
    ensures k < |lines| ==> hd(lines[k]).Some?
  {
    if |lines| == 0 || hd(lines[0]).Some? then 0 else 1 + FirstHeaderLine(hd, lines[1..])
  }

  /** The text cut at its header lines: a first block named `current`, then
      one block per header line. */
  function Blocks(hd: string -> Option<string>, current: string, lines: seq<string>): (bs: seq<Block>)
    ensures |bs| >= 1 && bs[0].name == current
    decreases |lines|
  {
    var k := FirstHeaderLine(hd, lines);
    if k == |lines| then [Block(current, lines)]
    else [Block(current, lines[..k])] + Blocks(hd, hd(lines[k]).value, lines[k + 1..])
  }

  /** Writes the blocks into the map in order, skipping empty ones. */
  function Assemble(m: map<string, string>, bs: seq<Block>): map<string, string>
    decreases |bs|
  {
    if |bs| == 0 then m else Assemble(Flush(m, bs[0].name, bs[0].body), bs[1..])
  }

  /** The content lines of all blocks. */
  function Bodies(bs: seq<Block>): seq<string>
    decreases |bs|
  {
    if |bs| == 0 then [] else bs[0].body + Bodies(bs[1..])
  }

  // ---------------------------------------------------------------------
  // Properties
  // ---------------------------------------------------------------------

  lemma {:induction false} BlocksCons(hd: string -> Option<string>, current: string, l: string, lines: seq<string>)
    requires hd(l).None?
    ensures Blocks(hd, current, [l] + lines)
         == [Block(current, [l] + Blocks(hd, current, lines)[0].body)] + Blocks(hd, current, lines)[1..]
  {
    var all := [l] + lines;
    assert all[1..] == lines;
    var k := FirstHeaderLine(hd, lines);
    assert FirstHeaderLine(hd, all) == 1 + k;
    assert all[..1 + k] == [l] + lines[..k];
    if k < |lines| {
      assert all[1 + k] == lines[k];
      assert all[1 + k + 1..] == lines[k + 1..];
    } else {
      assert all == [l] + lines[..k];
    }
  }

  lemma BlocksHeader(hd: string -> Option<string>, current: string, l: string, lines: seq<string>)
    requires hd(l).Some?
    ensures Blocks(hd, current, [l] + lines) == [Block(current, [])] + Blocks(hd, hd(l).value, lines)
  {
    var all := [l] + lines;
    assert all[1..] == lines;
    assert all[..0] == [];
  }

  /** From the state (`m`, `current`, `buffer`), running `lines` and
      flushing gives the map that writing the blocks of `lines` gives, with
      the buffered lines in front of the first block. */
  predicate RunMatches(hd: string -> Option<string>, m: map<string, string>, current: string,
                       buffer: seq<string>, lines: seq<string>)
  {
    var st := Run(hd, State(m, current, buffer), lines);
    var bs := Blocks(hd, current, lines);
    Flush(st.sections, st.current, st.buffer) == Assemble(m, [Block(current, buffer + bs[0].body)] + bs[1..])
  }

  /** A header line flushes the buffer into the map and empties it. */
  lemma HeaderRun(hd: string -> Option<string>, m: map<string, string>, current: string,
                  buffer: seq<string>, l: string, rest: seq<string>)
    requires hd(l).Some?
    ensures Run(hd, State(m, current, buffer), [l] + rest) == Run(hd, State(Flush(m, current, buffer), hd(l).value, []), rest)
  {
    var lines := [l] + rest;
    assert lines[0] == l && lines[1..] == rest;
  }

  /** A header line closes the first block and opens one of its own name. */
  lemma HeaderBlocks(hd: string -> Option<string>, current: string, buffer: seq<string>, l: string, rest: seq<string>)
    requires hd(l).Some?
    ensures var bs, hb := Blocks(hd, current, [l] + rest), Blocks(hd, hd(l).value, rest);
      && [Block(current, buffer + bs[0].body)] + bs[1..] == [Block(current, buffer)] + ([Block(hd(l).value, [] + hb[0].body)] + hb[1..])
  {
    BlocksHeader(hd, current, l, rest);
    var hb := Blocks(hd, hd(l).value, rest);
    assert [] + hb[0].body == hb[0].body;
    assert [Block(hd(l).value, hb[0].body)] + hb[1..] == hb;
    assert buffer + [] == buffer;
  }

  /** Writing a first block and then the rest is writing the rest into the
      map the first block gives. */
  lemma AssembleCons(m: map<string, string>, b: Block, bs: seq<Block>)
    ensures Assemble(m, [b] + bs) == Assemble(Flush(m, b.name, b.body), bs)
  {
    assert ([b] + bs)[1..] == bs;
  }

  /** A header line flushes the buffer into the map and opens a block. */
  lemma HeaderStep(hd: string -> Option<string>, m: map<string, string>, current: string,
                   buffer: seq<string>, l: string, rest: seq<string>)
    requires hd(l).Some?
    requires RunMatches(hd, Flush(m, current, buffer), hd(l).value, [], rest)
    ensures RunMatches(hd, m, current, buffer, [l] + rest)
  {
    var hb := Blocks(hd, hd(l).value, rest);
    HeaderRun(hd, m, current, buffer, l, rest);
    HeaderBlocks(hd, current, buffer, l, rest);
    AssembleCons(m, Block(current, buffer), [Block(hd(l).value, [] + hb[0].body)] + hb[1..]);
  }

  /** A content line goes to the end of the buffer. */
  lemma LineRun(hd: string -> Option<string>, m: map<string, string>, current: string,
                buffer: seq<string>, l: string, rest: seq<string>)
    requires hd(l).None?
    ensures Run(hd, State(m, current, buffer), [l] + rest) == Run(hd, State(m, current, buffer + [l]), rest)
  {
    var lines := [l] + rest;
    assert lines[0] == l && lines[1..] == rest;
  }

  /** A content line goes to the front of the first block. */
  lemma LineBlocks(hd: string -> Option<string>, current: string, buffer: seq<string>, l: string, rest: seq<string>)
    requires hd(l).None?
    ensures var bs, rb := Blocks(hd, current, [l] + rest), Blocks(hd, current, rest);
      [Block(current, buffer + bs[0].body)] + bs[1..] == [Block(current, (buffer + [l]) + rb[0].body)] + rb[1..]
  {
    BlocksCons(hd, current, l, rest);
    var rb := Blocks(hd, current, rest);
    var bs := Blocks(hd, current, [l] + rest);
    assert bs[0].body == [l] + rb[0].body && bs[1..] == rb[1..];
    assert buffer + bs[0].body == (buffer + [l]) + rb[0].body;
  }

  /** A content line joins the buffer and the first block alike. */
  lemma LineStep(hd: string -> Option<string>, m: map<string, string>, current: string,
                 buffer: seq<string>, l: string, rest: seq<string>)
    requires hd(l).None?
    requires RunMatches(hd, m, current, buffer + [l], rest)
    ensures RunMatches(hd, m, current, buffer, [l] + rest)
  {
    LineRun(hd, m, current, buffer, l, rest);
    LineBlocks(hd, current, buffer, l, rest);
  }

  /** The loop computes the block description from any state. */
  lemma {:induction false} RunAssembles(hd: string -> Option<string>, m: map<string, string>, current: string,
                                        buffer: seq<string>, lines: seq<string>)
    ensures RunMatches(hd, m, current, buffer, lines)
    decreases |lines|
  {
    if |lines| == 0 {
      assert Blocks(hd, current, lines) == [Block(current, [])];
      assert buffer + [] == buffer;
    } else {
      var l, rest := lines[0], lines[1..];
      assert lines == [l] + rest;
      if hd(l).Some? {
        RunAssembles(hd, Flush(m, current, buffer), hd(l).value, [], rest);
        HeaderStep(hd, m, current, buffer, l, rest);
      } else {
        RunAssembles(hd, m, current, buffer + [l], rest);
        LineStep(hd, m, current, buffer, l, rest);
      }
    }
  }

  /** The segmenter writes the blocks of the lines, in order, into an empty
      map. */
  lemma SegmentIsAssemble(hd: string -> Option<string>, lines: seq<string>)
    ensures Segment(hd, lines) == Assemble(map[], Blocks(hd, Unknown, lines))
  {
    var bs := Blocks(hd, Unknown, lines);
    RunAssembles(hd, map[], Unknown, [], lines);
    assert [] + bs[0].body == bs[0].body;
    assert [Block(Unknown, bs[0].body)] + bs[1..] == bs;
  }

  /** Every block is named `current` or by what `hd` returns for a line. */
  lemma {:induction false} BlockNames(hd: string -> Option<string>, current: string, lines: seq<string>, ok: string -> bool)
    requires ok(current)
    requires forall l :: hd(l).Some? ==> ok(hd(l).value)
    ensures forall i :: 0 <= i < |Blocks(hd, current, lines)| ==> ok(Blocks(hd, current, lines)[i].name)
    decreases |lines|
  {
    var k := FirstHeaderLine(hd, lines);
    if k < |lines| {
      BlockNames(hd, hd(lines[k]).value, lines[k + 1..], ok);
    }
  }

  /** Some block named `k` has content. */
  predicate HasContentBlock(bs: seq<Block>, k: string) {
    exists i :: 0 <= i < |bs| && bs[i].name == k && |bs[i].body| > 0
  }

  lemma HasContentBlockCons(bs: seq<Block>, k: string)
    requires |bs| > 0
    ensures HasContentBlock(bs, k) <==> (bs[0].name == k && |bs[0].body| > 0) || HasContentBlock(bs[1..], k)
  {
    if HasContentBlock(bs, k) {
      var i :| 0 <= i < |bs| && bs[i].name == k && |bs[i].body| > 0;
      if i > 0 {
        assert bs[1..][i - 1] == bs[i];
      }
    }
    if HasContentBlock(bs[1..], k) {
      var i :| 0 <= i < |bs[1..]| && bs[1..][i].name == k && |bs[1..][i].body| > 0;
      assert bs[i + 1] == bs[1..][i];
    }
  }

  /** A name is a key after the writes iff it was one before or some block of
      that name has content. */
  lemma {:induction false} AssembleKeys(m: map<string, string>, bs: seq<Block>, k: string)
    ensures k in Assemble(m, bs) <==> k in m || HasContentBlock(bs, k)
    decreases |bs|
  {
    if |bs| > 0 {
      var m1 := Flush(m, bs[0].name, bs[0].body);
      assert Assemble(m, bs) == Assemble(m1, bs[1..]);
      assert k in m1 <==> k in m || (bs[0].name == k && |bs[0].body| > 0);
      AssembleKeys(m1, bs[1..], k);
      HasContentBlockCons(bs, k);
    }
  }

  /** A name no later block with content carries keeps its entry. */
  lemma {:induction false} AssembleUntouched(m: map<string, string>, bs: seq<Block>, k: string)
    requires k in m
    requires forall j :: 0 <= j < |bs| ==> bs[j].name != k || |bs[j].body| == 0
    ensures k in Assemble(m, bs) && Assemble(m, bs)[k] == m[k]
    decreases |bs|
  {
    if |bs| > 0 {
      forall j | 0 <= j < |bs[1..]| ensures bs[1..][j].name != k || |bs[1..][j].body| == 0 {
        assert bs[1..][j] == bs[j + 1];
      }
      AssembleUntouched(Flush(m, bs[0].name, bs[0].body), bs[1..], k);
    }
  }

  /** The value of a name is written by its last block with content. */
  lemma {:induction false} AssembleLast(m: map<string, string>, bs: seq<Block>, i: nat)
    requires i < |bs| && |bs[i].body| > 0
    requires forall j :: i < j < |bs| ==> bs[j].name != bs[i].name || |bs[j].body| == 0
    ensures bs[i].name in Assemble(m, bs)
    ensures Assemble(m, bs)[bs[i].name] == Strip(Join(bs[i].body, "\n"))
    decreases |bs|
  {
    var m1 := Flush(m, bs[0].name, bs[0].body);
    assert Assemble(m, bs) == Assemble(m1, bs[1..]);
    if i == 0 {
      assert m1[bs[0].name] == Strip(Join(bs[0].body, "\n"));
      forall j | 0 <= j < |bs[1..]| ensures bs[1..][j].name != bs[0].name || |bs[1..][j].body| == 0 {
        assert bs[1..][j] == bs[j + 1];
      }
      AssembleUntouched(m1, bs[1..], bs[0].name);
    } else {
      assert bs[1..][i - 1] == bs[i];
      forall j | i - 1 < j < |bs[1..]| ensures bs[1..][j].name != bs[i].name || |bs[1..][j].body| == 0 {
        assert bs[1..][j] == bs[j + 1];
      }
      AssembleLast(m1, bs[1..], i - 1);
    }
  }

  /** Header lines are dropped and every other line lands, in order, in
      exactly one block. */
  lemma {:induction false} BlocksCover(hd: string -> Option<string>, current: string, lines: seq<string>)
    ensures Bodies(Blocks(hd, current, lines)) == Filter(lines, l => hd(l).None?)
    decreases |lines|
  {
    var content := l => hd(l).None?;
    if |lines| > 0 {
      var l, rest := lines[0], lines[1..];
      assert lines == [l] + rest;
      FilterAppend([l], rest, content);
      if hd(l).Some? {
        BlocksHeader(hd, current, l, rest);
        BlocksCover(hd, hd(l).value, rest);
        assert Blocks(hd, current, lines)[1..] == Blocks(hd, hd(l).value, rest);
      } else {
        BlocksCons(hd, current, l, rest);
        BlocksCover(hd, current, rest);
        var rb := Blocks(hd, current, rest);
        assert Blocks(hd, current, lines)[1..] == rb[1..];
        assert Bodies(rb) == rb[0].body + Bodies(rb[1..]);
      }
    } else {
      assert Blocks(hd, current, lines) == [Block(current, [])];
    }
  }

  // ---------------------------------------------------------------------
  // The segmenter with the known headers
  // ---------------------------------------------------------------------

  predicate IsKnownName(name: string) { name == Unknown || name in SectionHeaders }

  /** Every key of the result is `unknown` or a name `hd` returned. */
  lemma SegmentKeys(hd: string -> Option<string>, lines: seq<string>, ok: string -> bool, k: string)
    requires ok(Unknown)
    requires forall l :: hd(l).Some? ==> ok(hd(l).value)
    requires k in Segment(hd, lines)
    ensures ok(k)
  {
    var bs := Blocks(hd, Unknown, lines);
    SegmentIsAssemble(hd, lines);
    AssembleKeys(map[], bs, k);
    BlockNames(hd, Unknown, lines, ok);
  }

  /** Every key of the result is a known header or `unknown`. */
  lemma SectionKeys(text: string, k: string)
    requires k in SegmentSections(text)
    ensures k == Unknown || k in SectionHeaders
  {
    SegmentKeys(HeaderOf, Split(text, '\n'), IsKnownName, k);
  }

  /** The first block holds the lines before the first header line. */
  lemma FirstBlockBody(hd: string -> Option<string>, current: string, lines: seq<string>)
    ensures Blocks(hd, current, lines)[0].body == lines[..FirstHeaderLine(hd, lines)]
  {
    if FirstHeaderLine(hd, lines) == |lines| {
      assert lines[..|lines|] == lines;
    }
  }

  /** No block after the first is named `unknown`, since `hd` never returns it. */
  lemma LaterBlocksNamed(hd: string -> Option<string>, current: string, lines: seq<string>)
    requires forall l :: hd(l).Some? ==> hd(l).value != Unknown
    ensures forall j :: 1 <= j < |Blocks(hd, current, lines)| ==> Blocks(hd, current, lines)[j].name != Unknown
  {
    var k := FirstHeaderLine(hd, lines);
    if k < |lines| {
      var rest := Blocks(hd, hd(lines[k]).value, lines[k + 1..]);
      BlockNames(hd, hd(lines[k]).value, lines[k + 1..], n => n != Unknown);
      forall j | 1 <= j < |Blocks(hd, current, lines)| ensures Blocks(hd, current, lines)[j].name != Unknown {
        assert Blocks(hd, current, lines)[j] == rest[j - 1];
      }
    }
  }

  /** The section open before the first header is a key exactly when the
      first line is content; its value is then the lines before the first
      header, joined and stripped. */
  lemma FirstSection(hd: string -> Option<string>, lines: seq<string>)
    requires forall l :: hd(l).Some? ==> hd(l).value != Unknown
    ensures Unknown in Segment(hd, lines) <==> |lines| > 0 && hd(lines[0]).None?
    ensures Unknown in Segment(hd, lines) ==>
              Segment(hd, lines)[Unknown] == Strip(Join(lines[..FirstHeaderLine(hd, lines)], "\n"))
  {
    var bs := Blocks(hd, Unknown, lines);
    SegmentIsAssemble(hd, lines);
    AssembleKeys(map[], bs, Unknown);
    LaterBlocksNamed(hd, Unknown, lines);
    FirstBlockBody(hd, Unknown, lines);
    if |bs[0].body| > 0 {
      AssembleLast(map[], bs, 0);
    }
  }

  /** Lines without a header line form one section holding all of them. */
  lemma NoHeaderOneBlock(hd: string -> Option<string>, lines: seq<string>)
    requires forall i :: 0 <= i < |lines| ==> hd(lines[i]).None?
    ensures |lines| > 0 ==> Segment(hd, lines) == map[Unknown := Strip(Join(lines, "\n"))]
    ensures |lines| == 0 ==> Segment(hd, lines) == map[]
  {
    SegmentIsAssemble(hd, lines);
    assert Blocks(hd, Unknown, lines) == [Block(Unknown, lines)];
  }

  /** `unknown` is a key exactly when the first line opens no section; its
      value is then the lines before the first header, joined and stripped. */
  lemma UnknownSection(text: string)
    ensures var lines := Split(text, '\n');
            && (Unknown in SegmentSections(text) <==> HeaderOf(lines[0]).None?)
            && (Unknown in SegmentSections(text) ==>
                  SegmentSections(text)[Unknown] == Strip(Join(lines[..FirstHeaderLine(HeaderOf, lines)], "\n")))
  {
    FirstSection(HeaderOf, Split(text, '\n'));
  }

  /** Text without a header line is one `unknown` section holding the whole
      text, stripped. */
  lemma NoHeaderOneSection(text: string)
    requires forall i :: 0 <= i < |Split(text, '\n')| ==> HeaderOf(Split(text, '\n')[i]).None?
    ensures SegmentSections(text) == map[Unknown := Strip(text)]
  {
    NoHeaderOneBlock(HeaderOf, Split(text, '\n'));
  }

  /** Among blocks of one name, the last one with content lines supplies the
      value: a later header of the same name overwrites the earlier. */
  lemma LastBlockWins(text: string, i: nat)
    requires i < |Blocks(HeaderOf, Unknown, Split(text, '\n'))|
    requires var bs := Blocks(HeaderOf, Unknown, Split(text, '\n'));
             |bs[i].body| > 0 && forall j :: i < j < |bs| ==> bs[j].name != bs[i].name || |bs[j].body| == 0
    ensures var b := Blocks(HeaderOf, Unknown, Split(text, '\n'))[i];
            b.name in SegmentSections(text) && SegmentSections(text)[b.name] == Strip(Join(b.body, "\n"))
  {
    SegmentIsAssemble(HeaderOf, Split(text, '\n'));
    AssembleLast(map[], Blocks(HeaderOf, Unknown, Split(text, '\n')), i);
  }

  /** A name whose every block is empty (its header is directly followed by
      another header or by the end) gets no entry. */
  lemma EmptyBlocksNoEntry(hd: string -> Option<string>, lines: seq<string>, k: string)
    requires var bs := Blocks(hd, Unknown, lines);
             forall i :: 0 <= i < |bs| && bs[i].name == k ==> |bs[i].body| == 0
    ensures k !in Segment(hd, lines)
  {
    SegmentIsAssemble(hd, lines);
    AssembleKeys(map[], Blocks(hd, Unknown, lines), k);
  }
}
