/** Removals of two different names commute, as texts. */
module ConfCommute {
  import opened Text
  import opened WgConf
  import opened ConfDoc
  import ConfEdit

  /** Every block of the name has a blank line. */
  ghost predicate Delimited(name: string, blocks: seq<Block>) {
    forall i :: 0 <= i < |blocks| && blocks[i].name == name ==> HasBlank(blocks[i].body)
  }

  function Under(lines: seq<string>, d: Doc): Doc {
    Doc(lines + d.preamble, d.blocks)
  }

  /** The preamble only passes through when nothing is being skipped. */
  lemma PreamblePassesThrough(name: string, lines: seq<string>, d: Doc)
    ensures RemoveBlocks(name, Under(lines, d), false) == Under(lines, RemoveBlocks(name, d, false))
  {
    if d.blocks != [] {
      var b := d.blocks[0];
      var rest := RemoveBlocks(name, Doc(b.body, d.blocks[1..]), b.name == name);
      if b.name == name {
        assert lines + d.preamble + rest.preamble == lines + (d.preamble + rest.preamble);
      }
    }
  }

  lemma SkippingIsResidue(name: string, d: Doc)
    requires HasBlank(d.preamble)
    ensures RemoveBlocks(name, d, true) == RemoveBlocks(name, Doc(Residue(d.preamble), d.blocks), false)
  {
  }

  /** Removing a delimited first block keeps its residue. */
  lemma RemoveFirst(name: string, pre: seq<string>, b: Block, blocks: seq<Block>)
    requires b.name == name && HasBlank(b.body)
    ensures RemoveBlocks(name, Doc(pre, [b] + blocks), false) ==
            Under(pre, RemoveBlocks(name, Doc(Residue(b.body), blocks), false))
  {
    assert ([b] + blocks)[1..] == blocks;
    SkippingIsResidue(name, Doc(b.body, blocks));
  }

  lemma KeepFirst(name: string, pre: seq<string>, b: Block, blocks: seq<Block>)
    requires b.name != name
    ensures var rest := RemoveBlocks(name, Doc(b.body, blocks), false);
            RemoveBlocks(name, Doc(pre, [b] + blocks), false) ==
            Doc(pre, [Block(b.marker, b.name, rest.preamble)] + rest.blocks)
  {
    assert ([b] + blocks)[1..] == blocks;
  }

  /** A kept first body only grows, and its residue with it. */
  lemma KeptBodyGrows(name: string, b: Block, blocks: seq<Block>)
    requires HasBlank(b.body)
    ensures var kept := RemoveBlocks(name, Doc(b.body, blocks), false);
            && HasBlank(kept.preamble)
            && Doc(Residue(kept.preamble), kept.blocks) == RemoveBlocks(name, Doc(Residue(b.body), blocks), false)
  {
    var bare := Doc([], blocks);
    assert Doc(b.body, blocks) == Under(b.body, bare);
    assert Doc(Residue(b.body), blocks) == Under(Residue(b.body), bare);
    PreamblePassesThrough(name, b.body, bare);
    PreamblePassesThrough(name, Residue(b.body), bare);
    ConfEdit.ResidueAppend(b.body, RemoveBlocks(name, bare, false).preamble);
  }

  /** The first block is the first name's: the two orders agree on it. */
  lemma FirstBlockCommutes(first: string, second: string, pre: seq<string>, b: Block, blocks: seq<Block>)
    requires first != second && b.name == first && HasBlank(b.body)
    requires var d := Doc(Residue(b.body), blocks);
             RemoveBlocks(second, RemoveBlocks(first, d, false), false) ==
             RemoveBlocks(first, RemoveBlocks(second, d, false), false)
    ensures var d := Doc(pre, [b] + blocks);
            RemoveBlocks(second, RemoveBlocks(first, d, false), false) ==
            RemoveBlocks(first, RemoveBlocks(second, d, false), false)
  {
    var inner := Doc(Residue(b.body), blocks);
    RemoveFirst(first, pre, b, blocks);
    PreamblePassesThrough(second, pre, RemoveBlocks(first, inner, false));
    KeepFirst(second, pre, b, blocks);
    KeptBodyGrows(second, b, blocks);
    var kept := RemoveBlocks(second, Doc(b.body, blocks), false);
    RemoveFirst(first, pre, Block(b.marker, b.name, kept.preamble), kept.blocks);
  }

  lemma {:induction false} BlockRemovalsCommute(first: string, second: string, d: Doc)
    requires first != second && Delimited(first, d.blocks) && Delimited(second, d.blocks)
    ensures RemoveBlocks(second, RemoveBlocks(first, d, false), false) ==
            RemoveBlocks(first, RemoveBlocks(second, d, false), false)
    decreases |d.blocks|
  {
    if d.blocks != [] {
      var b, others := d.blocks[0], d.blocks[1..];
      assert d == Doc(d.preamble, [b] + others);
      BlockRemovalsCommute(first, second, Doc(if b.name == first || b.name == second then Residue(b.body) else b.body,
                                              others));
      if b.name == first {
        FirstBlockCommutes(first, second, d.preamble, b, others);
      } else if b.name == second {
        FirstBlockCommutes(second, first, d.preamble, b, others);
      } else {
        var x := RemoveBlocks(first, Doc(b.body, others), false);
        var y := RemoveBlocks(second, Doc(b.body, others), false);
        KeepFirst(first, d.preamble, b, others);
        KeepFirst(second, d.preamble, b, others);
        KeepFirst(second, d.preamble, Block(b.marker, b.name, x.preamble), x.blocks);
        KeepFirst(first, d.preamble, Block(b.marker, b.name, y.preamble), y.blocks);
      }
    }
  }

  lemma LineRemovalsCommute(first: string, second: string, lines: seq<string>)
    requires IsName(first) && IsName(second) && first != second
    requires Delimited(first, ToDoc(lines).blocks) && Delimited(second, ToDoc(lines).blocks)
    ensures KeptLines(second, KeptLines(first, lines, false), false) ==
            KeptLines(first, KeptLines(second, lines, false), false)
  {
    var a, b := KeptLines(first, lines, false), KeptLines(second, lines, false);
    RemovalRefinesBlocks(first, lines, false);
    RemovalRefinesBlocks(second, lines, false);
    RemovalRefinesBlocks(second, a, false);
    RemovalRefinesBlocks(first, b, false);
    BlockRemovalsCommute(first, second, ToDoc(lines));
    DocIsLossless(KeptLines(second, a, false));
    DocIsLossless(KeptLines(first, b, false));
  }

  // ---- normalised texts ----------------------------------------------------

  lemma EmptyLineHasNoMarker(name: string)
    ensures !MarksName(TrimSpace(""), name)
  {
  }

  lemma {:induction false} KeptLinesOfEmpty(name: string, count: nat, skip: bool) returns (left: nat)
    ensures KeptLines(name, EmptyLines(count), skip) == EmptyLines(left)
  {
    left := 0;
    if count > 0 {
      EmptyLineHasNoMarker(name);
      assert EmptyLines(count)[1..] == EmptyLines(count - 1);
      left := KeptLinesOfEmpty(name, count - 1, false);
      if !skip {
        assert [""] + EmptyLines(left) == EmptyLines(left + 1);
        left := left + 1;
      }
    }
  }

  lemma {:induction false} KeptLinesBeforeEmpty(name: string, lines: seq<string>, count: nat, skip: bool)
      returns (left: nat)
    ensures KeptLines(name, lines + EmptyLines(count), skip) == KeptLines(name, lines, skip) + EmptyLines(left)
    decreases |lines|
  {
    if lines == [] {
      assert lines + EmptyLines(count) == EmptyLines(count);
      left := KeptLinesOfEmpty(name, count, skip);
    } else {
      assert (lines + EmptyLines(count))[1..] == lines[1..] + EmptyLines(count);
      var line := TrimSpace(lines[0]);
      var next := MarksName(line, name) || (skip && line != "");
      left := KeptLinesBeforeEmpty(name, lines[1..], count, next);
    }
  }

  /** Removal does not look at how many newlines end the text. */
  lemma RemovedOfNormalised(content: string, name: string)
    ensures Removed(OneNewline(content), name) == Removed(content, name)
  {
    var lines := Split(TrimNewlines(content), '\n');
    var count := SplitTrimmed(content);
    SplitOneNewline(content);
    assert EmptyLines(1) == [""];
    var left := KeptLinesBeforeEmpty(name, lines, count, false);
    var left1 := KeptLinesBeforeEmpty(name, lines, 1, false);
    JoinEmptyLines(KeptLines(name, lines, false), left);
    JoinEmptyLines(KeptLines(name, lines, false), left1);
  }

  /** A second removal works on the kept lines of the first. */
  lemma RemovedTwice(content: string, first: string, second: string)
    ensures Removed(Removed(content, first), second) ==
            OneNewline(Join(KeptLines(second, KeptLines(first, Split(content, '\n'), false), false), '\n'))
  {
    var kept := KeptLines(first, Split(content, '\n'), false);
    RemovedOfNormalised(Join(kept, '\n'), second);
    JoinSplit(content, '\n');
    ConfEdit.KeptLinesSeparated(first, Split(content, '\n'), false);
    if kept == [] {
      EmptyLineHasNoMarker(second);
      assert [""][1..] == [];
      assert KeptLines(second, [""], false) == [""];
    } else {
      SplitJoin(kept, '\n');
    }
  }

  /** On every text in which each block of the two names has a blank line, and so
      on every well-formed one, their removals commute. */
  lemma RemovalsCommute(content: string, first: string, second: string)
    requires IsName(first) && IsName(second) && first != second
    requires var blocks := ToDoc(Split(content, '\n')).blocks;
             Delimited(first, blocks) && Delimited(second, blocks)
    ensures Removed(Removed(content, first), second) == Removed(Removed(content, second), first)
  {
    RemovedTwice(content, first, second);
    RemovedTwice(content, second, first);
    LineRemovalsCommute(first, second, Split(content, '\n'));
  }
}
