/** What appending and removing peer blocks does to the peers a text describes. */
module ConfEdit {
  import opened Text
  import opened WgConf
  import opened ConfDoc

  function Without(name: string, peers: seq<Peer>): seq<Peer>
    decreases |peers|
  {
    if peers == [] then []
    else if peers[0].name == name then Without(name, peers[1..])
    else [peers[0]] + Without(name, peers[1..])
  }

  function NamesOf(peers: seq<Peer>): set<string> {
    set i | 0 <= i < |peers| :: peers[i].name
  }

  ghost predicate DistinctNames(peers: seq<Peer>) {
    forall i, j :: 0 <= i < j < |peers| ==> peers[i].name != peers[j].name
  }

  ghost predicate NoKeyLines(lines: seq<string>) {
    forall i :: 0 <= i < |lines| ==> !IsKeyLine(TrimSpace(lines[i]))
  }

  /** A blank line closes the body and no key line follows it. */
  ghost predicate Closed(body: seq<string>) {
    HasBlank(body) && NoKeyLines(Residue(body))
  }

  ghost predicate AllClosed(blocks: seq<Block>) {
    forall i :: 0 <= i < |blocks| ==> Closed(blocks[i].body)
  }

  /** Every peer block of the text is closed. */
  ghost predicate WellFormed(content: string) {
    AllClosed(ToDoc(Split(content, '\n')).blocks)
  }

  // ---- reading extended bodies ---------------------------------------------

  lemma {:induction false} ReadBodyAppend(p: Peer, a: seq<string>, b: seq<string>)
    ensures ReadBody(p, a + b) == ReadBody(ReadBody(p, a), b)
    decreases |a|
  {
    if a == [] {
      assert a + b == b;
    } else {
      assert (a + b)[1..] == a[1..] + b;
      ReadBodyAppend(ReadLine(p, TrimSpace(a[0])), a[1..], b);
    }
  }

  lemma {:induction false} NoKeyLinesSayNothing(p: Peer, lines: seq<string>)
    requires NoKeyLines(lines)
    ensures ReadBody(p, lines) == p
    decreases |lines|
  {
    if lines != [] {
      NoKeyLinesSayNothing(p, lines[1..]);
    }
  }

  lemma {:induction false} ReadBodyKeepsName(p: Peer, lines: seq<string>)
    ensures ReadBody(p, lines).name == p.name
    decreases |lines|
  {
    if lines != [] {
      ReadBodyKeepsName(ReadLine(p, TrimSpace(lines[0])), lines[1..]);
    }
  }

  lemma PeerOfKeepsName(b: Block)
    ensures PeerOf(b).name == b.name
  {
    ReadBodyKeepsName(NewPeer(b.name), b.body);
  }

  /** `longer` is `lines` and then lines that say nothing. */
  ghost predicate Extends(longer: seq<string>, lines: seq<string>) {
    lines <= longer && NoKeyLines(longer[|lines|..])
  }

  lemma {:induction false} FirstBlankAppend(a: seq<string>, b: seq<string>)
    ensures HasBlank(a) ==> FirstBlank(a + b) == FirstBlank(a)
    ensures !HasBlank(a) ==> FirstBlank(a + b) == |a| + FirstBlank(b)
    decreases |a|
  {
    if a == [] {
      assert a + b == b;
    } else {
      assert (a + b)[1..] == a[1..] + b;
      FirstBlankAppend(a[1..], b);
    }
  }

  lemma ResidueAppend(a: seq<string>, b: seq<string>)
    requires HasBlank(a)
    ensures HasBlank(a + b) && Residue(a + b) == Residue(a) + b
  {
    FirstBlankAppend(a, b);
  }

  lemma ExtensionReadsSame(longer: Block, b: Block)
    requires longer.name == b.name && Extends(longer.body, b.body)
    ensures PeerOf(longer) == PeerOf(b)
    ensures Closed(b.body) ==> Closed(longer.body)
  {
    var extra := longer.body[|b.body|..];
    assert longer.body == b.body + extra;
    ReadBodyAppend(NewPeer(b.name), b.body, extra);
    NoKeyLinesSayNothing(PeerOf(b), extra);
    if HasBlank(b.body) {
      ResidueAppend(b.body, extra);
    }
  }

  // ---- removal on documents ------------------------------------------------

  function WithoutBlocks(name: string, blocks: seq<Block>): seq<Block>
    decreases |blocks|
  {
    if blocks == [] then []
    else if blocks[0].name == name then WithoutBlocks(name, blocks[1..])
    else [blocks[0]] + WithoutBlocks(name, blocks[1..])
  }

  lemma {:induction false} PeersOfWithout(name: string, blocks: seq<Block>)
    ensures PeersOf(WithoutBlocks(name, blocks)) == Without(name, PeersOf(blocks))
    decreases |blocks|
  {
    if blocks != [] {
      PeersOfWithout(name, blocks[1..]);
      PeerOfKeepsName(blocks[0]);
      var rest := WithoutBlocks(name, blocks[1..]);
      assert ([blocks[0]] + rest)[1..] == rest;
      assert PeersOf(blocks)[1..] == PeersOf(blocks[1..]);
    }
  }

  /** Nothing after the blank line of a block of this name is a key line. */
  ghost predicate LeavesNoKeys(name: string, blocks: seq<Block>) {
    forall i :: 0 <= i < |blocks| && blocks[i].name == name ==> NoKeyLines(Residue(blocks[i].body))
  }

  /** A block of this name lacks its blank line and a block of another name
      follows it directly. */
  ghost predicate DragsAlong(name: string, blocks: seq<Block>) {
    exists i :: 0 <= i < |blocks| - 1 && blocks[i].name == name && blocks[i + 1].name != name
                && !HasBlank(blocks[i].body)
  }

  /** The removed document keeps every other block in order, each with the same
      marker and name and a body that only grew by lines that say nothing. */
  ghost predicate KeepsBlocks(after: seq<Block>, kept: seq<Block>) {
    |after| == |kept| &&
    forall i :: 0 <= i < |kept| ==>
      after[i].marker == kept[i].marker && after[i].name == kept[i].name && Extends(after[i].body, kept[i].body)
  }

  /** The lines that the blocks of this name at the front leave behind. */
  function Leftover(name: string, blocks: seq<Block>): seq<string>
    decreases |blocks|
  {
    if blocks == [] || blocks[0].name != name then []
    else Residue(blocks[0].body) + Leftover(name, blocks[1..])
  }

  /** The other blocks, each with the lines left behind directly after it. */
  function WithLeftovers(name: string, blocks: seq<Block>): seq<Block>
    decreases |blocks|
  {
    if blocks == [] then []
    else if blocks[0].name == name then WithLeftovers(name, blocks[1..])
    else [blocks[0].(body := blocks[0].body + Leftover(name, blocks[1..]))] + WithLeftovers(name, blocks[1..])
  }

  /** No block of another name reads differently with the lines left behind
      directly after it. */
  ghost predicate LeftoversSayNothing(name: string, blocks: seq<Block>) {
    forall i :: 0 <= i < |blocks| && blocks[i].name != name ==>
      ReadBody(PeerOf(blocks[i]), Leftover(name, blocks[i + 1..])) == PeerOf(blocks[i])
  }

  lemma DragsAlongLater(name: string, b: Block, others: seq<Block>)
    requires DragsAlong(name, others)
    ensures DragsAlong(name, [b] + others)
  {
    var i :| 0 <= i < |others| - 1 && others[i].name == name && others[i + 1].name != name
             && !HasBlank(others[i].body);
    var all := [b] + others;
    assert all[i + 1] == others[i] && all[i + 2] == others[i + 1];
  }

  lemma KeepsOneMore(a: Block, b: Block, after: seq<Block>, kept: seq<Block>)
    requires a.marker == b.marker && a.name == b.name && Extends(a.body, b.body) && KeepsBlocks(after, kept)
    ensures KeepsBlocks([a] + after, [b] + kept)
  {
  }

  /** When nothing is dragged along, removal leaves exactly the other blocks and,
      with each, the lines left behind after it. */
  lemma {:induction false} RemovalLeavesLeftovers(name: string, d: Doc, skip: bool)
    requires !DragsAlong(name, d.blocks)
    requires skip && !HasBlank(d.preamble) && d.blocks != [] ==> d.blocks[0].name == name
    ensures RemoveBlocks(name, d, skip) ==
            Doc((if skip then Residue(d.preamble) else d.preamble) + Leftover(name, d.blocks),
                WithLeftovers(name, d.blocks))
    decreases |d.blocks|
  {
    var lines := if skip then Residue(d.preamble) else d.preamble;
    if d.blocks == [] {
      assert lines + [] == lines;
    } else {
      var b, others := d.blocks[0], d.blocks[1..];
      assert d.blocks == [b] + others;
      if DragsAlong(name, others) {
        DragsAlongLater(name, b, others);
      }
      assert b.name == name && !HasBlank(b.body) && others != [] ==> others[0].name == name by {
        assert others != [] ==> d.blocks[1] == others[0];
      }
      RemovalLeavesLeftovers(name, Doc(b.body, others), b.name == name);
      assert lines + [] == lines;
    }
  }

  lemma {:induction false} LeftoversExtend(name: string, blocks: seq<Block>)
    requires LeavesNoKeys(name, blocks)
    ensures NoKeyLines(Leftover(name, blocks))
    ensures KeepsBlocks(WithLeftovers(name, blocks), WithoutBlocks(name, blocks))
    decreases |blocks|
  {
    if blocks != [] {
      var b, others := blocks[0], blocks[1..];
      LeftoversExtend(name, others);
      if b.name != name {
        var body := b.body + Leftover(name, others);
        assert body[|b.body|..] == Leftover(name, others);
        KeepsOneMore(b.(body := body), b, WithLeftovers(name, others), WithoutBlocks(name, others));
      }
    }
  }

  /** In particular every other block is kept, up to lines that say nothing. */
  lemma RemovalKeepsOthers(name: string, d: Doc)
    requires LeavesNoKeys(name, d.blocks) && !DragsAlong(name, d.blocks)
    ensures KeepsBlocks(RemoveBlocks(name, d, false).blocks, WithoutBlocks(name, d.blocks))
  {
    RemovalLeavesLeftovers(name, d, false);
    LeftoversExtend(name, d.blocks);
  }

  lemma SayNothingCons(name: string, b: Block, others: seq<Block>)
    ensures LeftoversSayNothing(name, [b] + others) <==>
            LeftoversSayNothing(name, others) &&
            (b.name != name ==> ReadBody(PeerOf(b), Leftover(name, others)) == PeerOf(b))
  {
    var all := [b] + others;
    assert all[1..] == others;
    if LeftoversSayNothing(name, all) {
      assert all[0] == b;
      forall i | 0 <= i < |others| && others[i].name != name
        ensures ReadBody(PeerOf(others[i]), Leftover(name, others[i + 1..])) == PeerOf(others[i])
      {
        assert all[i + 1] == others[i] && all[i + 1 + 1..] == others[i + 1..];
      }
    }
    if LeftoversSayNothing(name, others) {
      forall i | 0 < i < |all| && all[i].name != name
        ensures ReadBody(PeerOf(all[i]), Leftover(name, all[i + 1..])) == PeerOf(all[i])
      {
        assert all[i] == others[i - 1] && all[i + 1..] == others[i - 1 + 1..];
      }
    }
  }

  lemma {:induction false} LeftoversReadSameIff(name: string, blocks: seq<Block>)
    ensures PeersOf(WithLeftovers(name, blocks)) == PeersOf(WithoutBlocks(name, blocks)) <==>
            LeftoversSayNothing(name, blocks)
    decreases |blocks|
  {
    if blocks != [] {
      var b, others := blocks[0], blocks[1..];
      assert blocks == [b] + others;
      LeftoversReadSameIff(name, others);
      SayNothingCons(name, b, others);
      if b.name != name {
        var longer := b.(body := b.body + Leftover(name, others));
        ReadBodyAppend(NewPeer(b.name), b.body, Leftover(name, others));
        var with, without := WithLeftovers(name, others), WithoutBlocks(name, others);
        assert ([longer] + with)[1..] == with && ([b] + without)[1..] == without;
        assert PeersOf([longer] + with) == [PeerOf(longer)] + PeersOf(with);
        assert PeersOf([b] + without) == [PeerOf(b)] + PeersOf(without);
      }
    }
  }

  lemma {:induction false} RemovalDropsDragged(name: string, d: Doc, skip: bool)
    ensures |RemoveBlocks(name, d, skip).blocks| <= |WithoutBlocks(name, d.blocks)|
    ensures DragsAlong(name, d.blocks) || (skip && !HasBlank(d.preamble) && d.blocks != [] && d.blocks[0].name != name)
            ==> |RemoveBlocks(name, d, skip).blocks| < |WithoutBlocks(name, d.blocks)|
    decreases |d.blocks|
  {
    if d.blocks != [] {
      var b, others := d.blocks[0], d.blocks[1..];
      var drop := b.name == name || (skip && !HasBlank(d.preamble));
      RemovalDropsDragged(name, Doc(b.body, others), drop);
      if DragsAlong(name, d.blocks) {
        var i :| 0 <= i < |d.blocks| - 1 && d.blocks[i].name == name && d.blocks[i + 1].name != name
                 && !HasBlank(d.blocks[i].body);
        if i > 0 {
          assert others[i - 1] == d.blocks[i] && others[i] == d.blocks[i + 1];
          assert DragsAlong(name, others);
        }
      }
    }
  }

  lemma KeptBlocksReadSame(after: seq<Block>, kept: seq<Block>)
    requires KeepsBlocks(after, kept)
    ensures PeersOf(after) == PeersOf(kept)
    ensures AllClosed(kept) ==> AllClosed(after)
  {
    forall i | 0 <= i < |kept|
      ensures PeerOf(after[i]) == PeerOf(kept[i])
      ensures Closed(kept[i].body) ==> Closed(after[i].body)
    {
      ExtensionReadsSame(after[i], kept[i]);
    }
  }

  lemma {:induction false} WithoutBlocksClosed(name: string, blocks: seq<Block>)
    requires AllClosed(blocks)
    ensures AllClosed(WithoutBlocks(name, blocks))
    decreases |blocks|
  {
    if blocks != [] {
      WithoutBlocksClosed(name, blocks[1..]);
    }
  }

  // ---- empty lines at the end of the text ----------------------------------

  lemma {:induction false} EmptyLinesHaveNoMarker(count: nat)
    ensures ToDoc(EmptyLines(count)) == Doc(EmptyLines(count), [])
  {
    if count > 0 {
      assert EmptyLines(count)[1..] == EmptyLines(count - 1);
      EmptyLinesHaveNoMarker(count - 1);
      assert EmptyLines(count) == [""] + EmptyLines(count - 1);
    }
  }

  lemma AddLinesKeepsBlocks(d: Doc, extra: seq<string>)
    requires NoKeyLines(extra)
    ensures KeepsBlocks(AddLines(d, extra).blocks, d.blocks)
  {
    if d.blocks != [] {
      var body := d.blocks[|d.blocks| - 1].body;
      assert (body + extra)[|body|..] == extra;
    }
  }

  lemma EmptyLinesAtEnd(lines: seq<string>, count: nat)
    ensures ToDoc(lines + EmptyLines(count)) == AddLines(ToDoc(lines), EmptyLines(count))
    ensures PeersOf(ToDoc(lines + EmptyLines(count)).blocks) == PeersOf(ToDoc(lines).blocks)
  {
    EmptyLinesHaveNoMarker(count);
    ToDocAppend(lines, EmptyLines(count));
    assert ToDoc(lines + EmptyLines(count)) == AddLines(ToDoc(lines), EmptyLines(count));
    AddLinesKeepsBlocks(ToDoc(lines), EmptyLines(count));
    KeptBlocksReadSame(AddLines(ToDoc(lines), EmptyLines(count)).blocks, ToDoc(lines).blocks);
  }

  lemma OneEmptyLineCloses(body: seq<string>, count: nat)
    requires Closed(body + EmptyLines(count))
    ensures Closed(body + [""])
  {
    FirstBlankAppend(body, EmptyLines(count));
    FirstBlankAppend(body, [""]);
    if HasBlank(body) {
      ResidueAppend(body, EmptyLines(count));
      ResidueAppend(body, [""]);
      var longer := Residue(body) + EmptyLines(count);
      assert forall i :: 0 <= i < |Residue(body)| ==> Residue(body)[i] == longer[i];
    }
  }

  lemma OneEmptyLineKeepsClosed(d: Doc, count: nat)
    requires AllClosed(AddLines(d, EmptyLines(count)).blocks)
    ensures AllClosed(AddLines(d, [""]).blocks)
  {
    if d.blocks != [] {
      var n := |d.blocks| - 1;
      var long, one := AddLines(d, EmptyLines(count)).blocks, AddLines(d, [""]).blocks;
      forall i | 0 <= i <= n ensures Closed(one[i].body) {
        assert Closed(long[i].body);
        if i == n {
          OneEmptyLineCloses(d.blocks[n].body, count);
        }
      }
    }
  }

  /** Normalising the end of the text changes neither the peers nor well-formedness. */
  lemma OneNewlineKeepsPeers(content: string)
    ensures Parsed(OneNewline(content)) == Parsed(content)
    ensures WellFormed(content) ==> WellFormed(OneNewline(content))
  {
    ParsedIsBlocks(content);
    ParsedIsBlocks(OneNewline(content));
    var count := SplitTrimmed(content);
    SplitOneNewline(content);
    var lines := Split(TrimNewlines(content), '\n');
    EmptyLinesAtEnd(lines, count);
    EmptyLinesAtEnd(lines, 1);
    assert EmptyLines(1) == [""];
    if WellFormed(content) {
      OneEmptyLineKeepsClosed(ToDoc(lines), count);
    }
  }

  // ---- removal on texts ----------------------------------------------------

  lemma {:induction false} KeptLinesSeparated(name: string, lines: seq<string>, skip: bool)
    requires Separated(lines, '\n')
    ensures Separated(KeptLines(name, lines, skip), '\n')
    decreases |lines|
  {
    if lines != [] {
      KeptLinesSeparated(name, lines[1..], true);
      KeptLinesSeparated(name, lines[1..], false);
    }
  }

  /** The document of the joined kept lines is the block removal. */
  lemma RemovedDoc(content: string, name: string)
    requires IsName(name)
    ensures var kept := KeptLines(name, Split(content, '\n'), false);
            ToDoc(Split(Join(kept, '\n'), '\n')).blocks ==
            RemoveBlocks(name, ToDoc(Split(content, '\n')), false).blocks
  {
    var lines := Split(content, '\n');
    var kept := KeptLines(name, lines, false);
    JoinSplit(content, '\n');
    KeptLinesSeparated(name, lines, false);
    RemovalRefinesBlocks(name, lines, false);
    if kept == [] {
      assert [""][1..] == [];
      assert ToDoc([""]).blocks == [];
    } else {
      SplitJoin(kept, '\n');
    }
  }

  /** On a well-formed text, removing a name filters exactly its peers out, keeps
      the others in order and keeps the text well-formed. */
  lemma RemovalFilters(content: string, name: string)
    requires IsName(name) && WellFormed(content)
    ensures Parsed(Removed(content, name)) == Without(name, Parsed(content))
    ensures WellFormed(Removed(content, name))
  {
    var d := ToDoc(Split(content, '\n'));
    var after := RemoveBlocks(name, d, false);
    RemovalKeepsOthers(name, d);
    WithoutBlocksClosed(name, d.blocks);
    KeptBlocksReadSame(after.blocks, WithoutBlocks(name, d.blocks));
    PeersOfWithout(name, d.blocks);
    ParsedIsBlocks(content);
    var joined := Join(KeptLines(name, Split(content, '\n'), false), '\n');
    RemovedDoc(content, name);
    ParsedIsBlocks(joined);
    OneNewlineKeepsPeers(joined);
  }

  /** Both sides of a removal as peers of block lists. */
  lemma RemovedPeers(content: string, name: string)
    requires IsName(name)
    ensures var d := ToDoc(Split(content, '\n'));
            && Parsed(Removed(content, name)) == PeersOf(RemoveBlocks(name, d, false).blocks)
            && Without(name, Parsed(content)) == PeersOf(WithoutBlocks(name, d.blocks))
  {
    var joined := Join(KeptLines(name, Split(content, '\n'), false), '\n');
    RemovedDoc(content, name);
    ParsedIsBlocks(content);
    ParsedIsBlocks(joined);
    OneNewlineKeepsPeers(joined);
    PeersOfWithout(name, ToDoc(Split(content, '\n')).blocks);
  }

  /** On every text whatever, removal filters exactly the name out on precisely
      the texts where none of its blocks drags its successor along and the lines
      they leave behind mean nothing to the block before them. */
  lemma RemovalIsExactIff(content: string, name: string)
    requires IsName(name)
    ensures var blocks := ToDoc(Split(content, '\n')).blocks;
            Parsed(Removed(content, name)) == Without(name, Parsed(content)) <==>
            !DragsAlong(name, blocks) && LeftoversSayNothing(name, blocks)
  {
    var d := ToDoc(Split(content, '\n'));
    RemovedPeers(content, name);
    if DragsAlong(name, d.blocks) {
      RemovalDropsDragged(name, d, false);
    } else {
      RemovalLeavesLeftovers(name, d, false);
      LeftoversReadSameIff(name, d.blocks);
    }
  }

  /** Lines left behind that are no key lines never mean anything. */
  lemma NoKeysLeftIsEnough(name: string, blocks: seq<Block>)
    requires LeavesNoKeys(name, blocks)
    ensures LeftoversSayNothing(name, blocks)
  {
    LeftoversExtend(name, blocks);
    KeptBlocksReadSame(WithLeftovers(name, blocks), WithoutBlocks(name, blocks));
    LeftoversReadSameIff(name, blocks);
  }
}
