/** A configuration as a document: a preamble and a list of peer blocks. The
    line-by-line parser and remover are refined by operations on blocks. */
module ConfDoc {
  import opened Common
  import opened Text
  import opened WgConf

  datatype Block = Block(marker: string, name: string, body: seq<string>)

  datatype Doc = Doc(preamble: seq<string>, blocks: seq<Block>)

  function NameOn(line: string): Option<string> {
    MarkerName(TrimSpace(line))
  }

  function ToDoc(lines: seq<string>): Doc
    decreases |lines|
  {
    if lines == [] then Doc([], [])
    else
      var rest := ToDoc(lines[1..]);
      var name := NameOn(lines[0]);
      if name.Some? then Doc([], [Block(lines[0], name.value, rest.preamble)] + rest.blocks)
      else Doc([lines[0]] + rest.preamble, rest.blocks)
  }

  function BlockLines(blocks: seq<Block>): seq<string>
    decreases |blocks|
  {
    if blocks == [] then [] else [blocks[0].marker] + blocks[0].body + BlockLines(blocks[1..])
  }

  /** The document is the file: nothing is lost. */
  lemma {:induction false} DocIsLossless(lines: seq<string>)
    ensures ToDoc(lines).preamble + BlockLines(ToDoc(lines).blocks) == lines
    decreases |lines|
  {
    if lines != [] {
      DocIsLossless(lines[1..]);
      var rest := ToDoc(lines[1..]);
      var name := NameOn(lines[0]);
      if name.Some? {
        var b := Block(lines[0], name.value, rest.preamble);
        assert ([b] + rest.blocks)[1..] == rest.blocks;
      }
      assert lines == [lines[0]] + lines[1..];
    }
  }

  // ---- parsing -------------------------------------------------------------

  function ReadBody(p: Peer, body: seq<string>): Peer
    decreases |body|
  {
    if body == [] then p else ReadBody(ReadLine(p, TrimSpace(body[0])), body[1..])
  }

  function PeerOf(b: Block): Peer {
    ReadBody(NewPeer(b.name), b.body)
  }

  function PeersOf(blocks: seq<Block>): (peers: seq<Peer>)
    ensures |peers| == |blocks|
    ensures forall i :: 0 <= i < |peers| ==> peers[i] == PeerOf(blocks[i])
    decreases |blocks|
  {
    if blocks == [] then [] else [PeerOf(blocks[0])] + PeersOf(blocks[1..])
  }

  /** The peers closed so far, the open one with the preamble, and one for each
      block. */
  function ReadDoc(st: ParseState, d: Doc): seq<Peer> {
    st.peers + (if st.current.Some? then [ReadBody(st.current.value, d.preamble)] else []) + PeersOf(d.blocks)
  }

  lemma MarkerOpens(st: ParseState, line: string)
    ensures NameOn(line).Some? ==> ParseLine(st, line) == ParseState(Some(NewPeer(NameOn(line).value)), ClosePeer(st))
  {
  }

  lemma PeersOfCons(b: Block, blocks: seq<Block>)
    ensures PeersOf([b] + blocks) == [PeerOf(b)] + PeersOf(blocks)
  {
    assert ([b] + blocks)[1..] == blocks;
  }

  lemma ReadMarker(st: ParseState, line: string, d: Doc)
    ensures NameOn(line).Some? ==>
              ReadDoc(ParseLine(st, line), d) ==
              ReadDoc(st, Doc([], [Block(line, NameOn(line).value, d.preamble)] + d.blocks))
  {
    if NameOn(line).Some? {
      var b := Block(line, NameOn(line).value, d.preamble);
      var left, right := ReadDoc(ParseLine(st, line), d), ReadDoc(st, Doc([], [b] + d.blocks));
      var open := if st.current.Some? then [st.current.value] else [];
      MarkerOpens(st, line);
      PeersOfCons(b, d.blocks);
      assert left == (st.peers + open) + [PeerOf(b)] + PeersOf(d.blocks);
      assert right == st.peers + open + ([PeerOf(b)] + PeersOf(d.blocks));
      JoinPeers(st.peers + open, [PeerOf(b)], PeersOf(d.blocks));
    }
  }

  lemma JoinPeers(a: seq<Peer>, b: seq<Peer>, c: seq<Peer>)
    ensures a + b + c == a + (b + c)
  {
  }

  lemma ReadPlain(st: ParseState, line: string, d: Doc)
    ensures NameOn(line).None? ==>
              ReadDoc(ParseLine(st, line), d) == ReadDoc(st, Doc([line] + d.preamble, d.blocks))
  {
    assert ([line] + d.preamble)[1..] == d.preamble;
  }

  lemma {:induction false} ParserReadsBlocks(st: ParseState, lines: seq<string>)
    ensures ClosePeer(ParseLines(st, lines)) == ReadDoc(st, ToDoc(lines))
    decreases |lines|
  {
    if lines != [] {
      var line, rest := lines[0], ToDoc(lines[1..]);
      ParserReadsBlocks(ParseLine(st, line), lines[1..]);
      if NameOn(line).Some? {
        ReadMarker(st, line, rest);
      } else {
        ReadPlain(st, line, rest);
      }
    }
  }

  lemma {:induction false} ParseLinesAppend(st: ParseState, a: seq<string>, b: seq<string>)
    ensures ParseLines(st, a + b) == ParseLines(ParseLines(st, a), b)
    decreases |a|
  {
    if a == [] {
      assert a + b == b;
    } else {
      assert (a + b)[1..] == a[1..] + b;
      ParseLinesAppend(ParseLine(st, a[0]), a[1..], b);
    }
  }

  lemma {:induction false} ParseLinesIgnoresReturns(st: ParseState, lines: seq<string>)
    ensures ParseLines(st, seq(|lines|, i requires 0 <= i < |lines| => DropCarriageReturn(lines[i]))) ==
            ParseLines(st, lines)
    decreases |lines|
  {
    if lines != [] {
      var dropped := seq(|lines|, i requires 0 <= i < |lines| => DropCarriageReturn(lines[i]));
      var s := lines[0];
      if s != "" && s[|s| - 1] == '\r' {
        TrimSpaceDropsSuffix(s[..|s| - 1], '\r');
        assert s == s[..|s| - 1] + ['\r'];
      }
      assert ParseLine(st, dropped[0]) == ParseLine(st, lines[0]);
      ParseLinesIgnoresReturns(ParseLine(st, lines[0]), lines[1..]);
      assert dropped[1..] == seq(|lines[1..]|, i requires 0 <= i < |lines[1..]| => DropCarriageReturn(lines[1..][i]));
    }
  }

  lemma EmptyLineSaysNothing(st: ParseState)
    ensures ParseLines(st, [""]) == st
  {
    assert [""][1..] == [];
    assert MarkerName("") == None;
  }

  lemma LastEmptyLineSaysNothing(st: ParseState, lines: seq<string>)
    requires lines != [] && lines[|lines| - 1] == ""
    ensures ParseLines(st, lines[..|lines| - 1]) == ParseLines(st, lines)
  {
    var kept := lines[..|lines| - 1];
    assert lines == kept + [""];
    ParseLinesAppend(st, kept, [""]);
    EmptyLineSaysNothing(ParseLines(st, kept));
  }

  lemma ScannedAsSplit(content: string)
    ensures ParseLines(PARSE_START, ScanLines(content)) == ParseLines(PARSE_START, Split(content, '\n'))
  {
    var lines := Split(content, '\n');
    var kept := if lines[|lines| - 1] == "" then lines[..|lines| - 1] else lines;
    ParseLinesIgnoresReturns(PARSE_START, kept);
    if lines[|lines| - 1] == "" {
      LastEmptyLineSaysNothing(PARSE_START, lines);
    }
  }

  /** For every text, the parsed peers are the blocks of its lines. */
  lemma ParsedIsBlocks(content: string)
    ensures Parsed(content) == PeersOf(ToDoc(Split(content, '\n')).blocks)
  {
    ScannedAsSplit(content);
    ParserReadsBlocks(PARSE_START, Split(content, '\n'));
    assert [] + [] + PeersOf(ToDoc(Split(content, '\n')).blocks) == PeersOf(ToDoc(Split(content, '\n')).blocks);
  }

  // ---- joining documents ---------------------------------------------------

  /** Lines without a marker go to the end of the last block or the preamble. */
  function AddLines(d: Doc, lines: seq<string>): Doc {
    if d.blocks == [] then Doc(d.preamble + lines, [])
    else
      var last := d.blocks[|d.blocks| - 1];
      Doc(d.preamble, d.blocks[..|d.blocks| - 1] + [last.(body := last.body + lines)])
  }

  lemma AddLinesBelow(pre: seq<string>, head: Block, d: Doc, extra: seq<string>)
    ensures AddLines(Doc(pre, [head.(body := d.preamble)] + d.blocks), extra) ==
            Doc(pre, [head.(body := AddLines(d, extra).preamble)] + AddLines(d, extra).blocks)
  {
    var blocks := [head.(body := d.preamble)] + d.blocks;
    if d.blocks != [] {
      assert blocks[..|blocks| - 1] == [blocks[0]] + d.blocks[..|d.blocks| - 1];
    }
  }

  /** The second document under the first. */
  function JoinDocs(d: Doc, e: Doc): Doc {
    var longer := AddLines(d, e.preamble);
    Doc(longer.preamble, longer.blocks + e.blocks)
  }

  lemma JoinUnderLine(line: string, d: Doc, e: Doc)
    ensures JoinDocs(Doc([line] + d.preamble, d.blocks), e) ==
            Doc([line] + JoinDocs(d, e).preamble, JoinDocs(d, e).blocks)
  {
    assert [line] + d.preamble + e.preamble == [line] + (d.preamble + e.preamble);
  }

  lemma JoinUnderMarker(head: Block, d: Doc, e: Doc)
    ensures JoinDocs(Doc([], [head.(body := d.preamble)] + d.blocks), e) ==
            Doc([], [head.(body := JoinDocs(d, e).preamble)] + JoinDocs(d, e).blocks)
  {
    AddLinesBelow([], head, d, e.preamble);
    var longer := AddLines(d, e.preamble);
    var first := [head.(body := longer.preamble)];
    assert first + longer.blocks + e.blocks == first + (longer.blocks + e.blocks);
  }

  lemma ToDocMarker(line: string, rest: seq<string>)
    ensures NameOn(line).Some? ==>
              ToDoc([line] + rest) ==
              Doc([], [Block(line, NameOn(line).value, ToDoc(rest).preamble)] + ToDoc(rest).blocks)
  {
    assert ([line] + rest)[1..] == rest;
  }

  lemma ToDocPlain(line: string, rest: seq<string>)
    ensures NameOn(line).None? ==>
              ToDoc([line] + rest) == Doc([line] + ToDoc(rest).preamble, ToDoc(rest).blocks)
  {
    assert ([line] + rest)[1..] == rest;
  }

  lemma {:induction false} ToDocAppend(a: seq<string>, b: seq<string>)
    ensures ToDoc(a + b) == JoinDocs(ToDoc(a), ToDoc(b))
    decreases |a|
  {
    if a == [] {
      assert a + b == b;
      assert [] + ToDoc(b).preamble == ToDoc(b).preamble && [] + ToDoc(b).blocks == ToDoc(b).blocks;
    } else {
      var line, rest := a[0], a[1..];
      assert (a + b)[0] == line && (a + b)[1..] == rest + b;
      ToDocAppend(rest, b);
      JoinUnderLine(line, ToDoc(rest), ToDoc(b));
      JoinUnderMarker(Block(line, if NameOn(line).Some? then NameOn(line).value else "", []), ToDoc(rest), ToDoc(b));
    }
  }

  // ---- removing blocks -----------------------------------------------------

  function FirstBlank(body: seq<string>): (k: nat)
    ensures k <= |body|
    decreases |body|
  {
    if body == [] || TrimSpace(body[0]) == "" then 0 else 1 + FirstBlank(body[1..])
  }

  predicate HasBlank(body: seq<string>) {
    FirstBlank(body) < |body|
  }

  /** What is left of a dropped body: the lines after its first blank one. */
  function Residue(body: seq<string>): seq<string> {
    if HasBlank(body) then body[FirstBlank(body) + 1..] else []
  }

  /** Removal on blocks. A dropped block leaves its residue to whatever precedes
      it, and one without a blank line drags the next block along. */
  function RemoveBlocks(name: string, d: Doc, skip: bool): Doc
    decreases |d.blocks|
  {
    var lines := if skip then Residue(d.preamble) else d.preamble;
    var skipping := skip && !HasBlank(d.preamble);
    if d.blocks == [] then Doc(lines, [])
    else
      var b := d.blocks[0];
      var drop := b.name == name || skipping;
      var rest := RemoveBlocks(name, Doc(b.body, d.blocks[1..]), drop);
      if drop then Doc(lines + rest.preamble, rest.blocks)
      else Doc(lines, [Block(b.marker, b.name, rest.preamble)] + rest.blocks)
  }

  lemma {:induction false} SkipBlanksOf(blanks: string, s: string)
    requires AllBlank(blanks) && s != "" && !IsBlank(s[0])
    ensures SkipBlanks(blanks + s) == s
  {
    if blanks == "" {
      assert blanks + s == s;
    } else {
      assert (blanks + s)[1..] == blanks[1..] + s;
      SkipBlanksOf(blanks[1..], s);
    }
  }

  lemma {:induction false} DropBlanksOf(s: string, blanks: string)
    requires AllBlank(blanks) && s != "" && !IsBlank(s[|s| - 1])
    ensures DropBlanks(s + blanks) == s
  {
    if blanks == "" {
      assert s + blanks == s;
    } else {
      assert (s + blanks)[..|s + blanks| - 1] == s + blanks[..|blanks| - 1];
      DropBlanksOf(s, blanks[..|blanks| - 1]);
    }
  }

  lemma {:induction false} SkipBlanksSplits(s: string) returns (k: nat)
    ensures k <= |s| && AllBlank(s[..k]) && SkipBlanks(s) == s[k..]
  {
    k := 0;
    if s != "" && IsBlank(s[0]) {
      var n := SkipBlanksSplits(s[1..]);
      k := n + 1;
      assert s[..k] == [s[0]] + s[1..][..n];
    }
  }

  lemma {:induction false} DropBlanksSplits(s: string) returns (k: nat)
    ensures k <= |s| && DropBlanks(s) == s[..k] && AllBlank(s[k..])
  {
    k := |s|;
    if s != "" && IsBlank(s[|s| - 1]) {
      var shorter := s[..|s| - 1];
      k := DropBlanksSplits(shorter);
      assert shorter[..k] == s[..k];
      assert s[k..] == shorter[k..] + [s[|s| - 1]];
    }
  }

  lemma MarkIsName(before: string, name: string, behind: string)
    requires IsName(name) && before != "" && AllBlank(before) && AllBlank(behind)
    ensures DropBlanks(SkipBlanks(before + (name + behind))) == name && IsBlank((before + (name + behind))[0])
  {
    assert name[0] == (name + behind)[0] && IsNameChar(name[0]) && IsNameChar(name[|name| - 1]);
    SkipBlanksOf(before, name + behind);
    DropBlanksOf(name, behind);
  }

  /** Blanks, the rest without blanks around it, and blanks again. */
  lemma BlanksAround(after: string) returns (i: nat, k: nat)
    ensures i + k <= |after| && AllBlank(after[..i]) && AllBlank(after[i + k..])
    ensures after[i..i + k] == DropBlanks(SkipBlanks(after))
    ensures after != "" && IsBlank(after[0]) && k > 0 && !IsBlank(after[i]) ==> i > 0
  {
    i := SkipBlanksSplits(after);
    var rest := after[i..];
    k := DropBlanksSplits(rest);
    assert after[i..i + k] == rest[..k] && after[i + k..] == rest[k..];
  }

  /** The name is in the text after `Client`, between blanks. */
  ghost predicate Between(after: string, name: string, i: int) {
    && 1 <= i <= |after| - |name| && AllBlank(after[..i])
    && after[i..i + |name|] == name && AllBlank(after[i + |name|..])
  }

  lemma BetweenIsName(after: string, name: string, i: int)
    requires IsName(name) && Between(after, name, i)
    ensures DropBlanks(SkipBlanks(after)) == name && IsBlank(after[0])
  {
    var before, behind := after[..i], after[i + |name|..];
    assert after == before + (name + behind);
    MarkIsName(before, name, behind);
  }

  lemma NameIsBetween(after: string, name: string) returns (i: int)
    requires IsName(name) && after != "" && IsBlank(after[0]) && DropBlanks(SkipBlanks(after)) == name
    ensures Between(after, name, i)
  {
    var start, k := BlanksAround(after);
    i := start;
    assert k == |name| && after[i] == name[0] && IsNameChar(name[0]);
  }

  /** For names the parser can produce, the remover's marker test and the
      parser's name extraction recognise the same lines. */
  lemma MarkersAgree(line: string, name: string)
    requires IsName(name)
    ensures MarksName(line, name) <==> MarkerName(line) == Some(name)
  {
    var a := AfterClient(line);
    if MarksName(line, name) {
      var i :| 1 <= i <= |a.value| - |name| && AllBlank(a.value[..i])
               && a.value[i..i + |name|] == name && AllBlank(a.value[i + |name|..]);
      BetweenIsName(a.value, name, i);
    }
    if MarkerName(line) == Some(name) {
      var i := NameIsBetween(a.value, name);
    }
  }

  lemma RemoveAtMarker(name: string, b: Block, blocks: seq<Block>, skip: bool)
    ensures var drop := b.name == name || skip;
            var rest := RemoveBlocks(name, Doc(b.body, blocks), drop);
            RemoveBlocks(name, Doc([], [b] + blocks), skip) ==
            if drop then rest else Doc([], [Block(b.marker, b.name, rest.preamble)] + rest.blocks)
  {
    assert ([b] + blocks)[1..] == blocks;
  }

  lemma RemoveAtLine(name: string, line: string, d: Doc, skip: bool)
    ensures var rest := RemoveBlocks(name, d, false);
            RemoveBlocks(name, Doc([line] + d.preamble, d.blocks), skip) ==
            if skip then RemoveBlocks(name, d, TrimSpace(line) != "")
            else Doc([line] + rest.preamble, rest.blocks)
  {
    var body := [line] + d.preamble;
    assert body[1..] == d.preamble;
    if skip {
      assert FirstBlank(body) == if TrimSpace(line) == "" then 0 else 1 + FirstBlank(d.preamble);
      assert Residue(body) == if TrimSpace(line) == "" then d.preamble else Residue(d.preamble);
    }
  }

  /** Line removal refines block removal on every file whatever. */
  lemma {:induction false} RemovalRefinesBlocks(name: string, lines: seq<string>, skip: bool)
    requires IsName(name)
    ensures ToDoc(KeptLines(name, lines, skip)) == RemoveBlocks(name, ToDoc(lines), skip)
    decreases |lines|
  {
    if lines != [] {
      var line := TrimSpace(lines[0]);
      var rest := ToDoc(lines[1..]);
      var found := MarkerName(line);
      MarkersAgree(line, name);
      var skipNext := if found.Some? then found.value == name || skip else skip && line != "";
      RemovalRefinesBlocks(name, lines[1..], skipNext);
      if found.Some? {
        RemoveAtMarker(name, Block(lines[0], found.value, rest.preamble), rest.blocks, skip);
      } else {
        RemoveAtLine(name, lines[0], rest, skip);
      }
      if !skip && found != Some(name) {
        var kept := KeptLines(name, lines[1..], false);
        assert ([lines[0]] + kept)[1..] == kept;
      }
    }
  }
}
