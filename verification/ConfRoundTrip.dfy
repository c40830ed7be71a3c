/** Appending a peer block: what the parser reads back, and undoing it. */
module ConfRoundTrip {
  import opened Common
  import opened Text
  import opened WgConf
  import opened ConfDoc
  import opened ConfEdit

  /** One-line values with nothing to trim at their end, and addresses that are
      the ones in the allowed IPs. */
  ghost predicate Printable(p: Peer) {
    && IsName(p.name)
    && EndsClean(p.publicKey) && EndsClean(p.preshared) && EndsClean(p.allowedIPs)
    && AddressesOf(p.allowedIPs) == (p.ipv4, p.ipv6)
  }

  lemma NameHasNoNewline(name: string)
    requires IsName(name)
    ensures '\n' !in name && !IsSpace(name[0]) && !IsSpace(name[|name| - 1])
  {
    assert IsNameChar(name[0]) && IsNameChar(name[|name| - 1]);
  }

  ghost predicate OneLineFields(p: Peer) {
    IsName(p.name) && '\n' !in p.publicKey && '\n' !in p.preshared && '\n' !in p.allowedIPs
  }

  /** The appended text adds exactly the lines of the block. */
  lemma AppendedLines(content: string, p: Peer)
    requires OneLineFields(p)
    ensures Split(Appended(content, p), '\n') == Split(content, '\n') + ([MarkerLine(p.name)] + BodyLines(p))
  {
    NameHasNoNewline(p.name);
    var lines := [MarkerLine(p.name)] + BodyLines(p);
    SplitJoin(lines, '\n');
    SplitConcat(content, '\n', Join(lines, '\n'));
    assert Appended(content, p) == content + ['\n'] + Join(lines, '\n');
  }

  // ---- reading the block ---------------------------------------------------

  lemma DropFirst(a: string, b: string)
    ensures HasPrefix(a + b, a) && (a + b)[|a|..] == b
  {
  }

  lemma Regroup(a: string, b: string, c: string, d: string, e: string)
    ensures a + b + c + d + e == a + (b + (c + (d + e)))
  {
  }

  lemma MarkerParts(after: string)
    ensures AfterClient("###" + (" " + ("Client" + after))) == Some(after)
  {
    DropFirst("Client", after);
    SkipBlanksOf(" ", "Client" + after);
    DropFirst("###", " " + ("Client" + after));
  }

  lemma MarkerLineNames(name: string)
    requires IsName(name)
    ensures NameOn(MarkerLine(name)) == Some(name)
  {
    NameHasNoNewline(name);
    var line := MarkerLine(name);
    assert TrimSpace(line) == line by {
      assert line[|line| - 1] == name[|name| - 1];
      TrimSpaceOfTrimmed(line);
    }
    assert AfterClient(line) == Some(" " + name) by {
      assert "### Client " == "###" + " " + "Client" + " ";
      Regroup("###", " ", "Client", " ", name);
      MarkerParts(" " + name);
    }
    SkipBlanksOf(" ", name);
    assert name + "" == name;
    DropBlanksOf(name, "");
  }

  lemma TrimKeyLine(key: string, value: string)
    requires |key| >= 2 && !IsSpace(key[0]) && key[|key| - 1] == ' ' && !IsSpace(key[|key| - 2])
    requires EndsClean(value)
    ensures TrimSpace(key + value) == if value == "" then key[..|key| - 1] else key + value
  {
    if value == "" {
      assert key + value == key[..|key| - 1] + [' '];
      TrimSpaceDropsSuffix(key[..|key| - 1], ' ');
      TrimSpaceOfTrimmed(key[..|key| - 1]);
    } else {
      TrimSpaceOfTrimmed(key + value);
    }
  }

  lemma NoAddresses()
    ensures AddressesOf("") == ("", "")
  {
    assert [""][1..] == [];
  }

  lemma PublicKeyReadsBack(p: Peer, value: string)
    requires EndsClean(value) && p.publicKey == ""
    ensures ReadLine(p, TrimSpace(PUBLIC_KEY + value)) == p.(publicKey := value)
  {
    TrimKeyLine(PUBLIC_KEY, value);
  }

  lemma PresharedReadsBack(p: Peer, value: string)
    requires EndsClean(value) && p.preshared == ""
    ensures ReadLine(p, TrimSpace(PRESHARED_KEY + value)) == p.(preshared := value)
  {
    TrimKeyLine(PRESHARED_KEY, value);
    assert PRESHARED_KEY[1] != PUBLIC_KEY[1];
  }

  lemma AllowedReadsBack(p: Peer, value: string)
    requires EndsClean(value) && p.allowedIPs == p.ipv4 == p.ipv6 == ""
    ensures var ips := AddressesOf(value);
            ReadLine(p, TrimSpace(ALLOWED_IPS + value)) == p.(allowedIPs := value, ipv4 := ips.0, ipv6 := ips.1)
  {
    TrimKeyLine(ALLOWED_IPS, value);
    NoAddresses();
    assert ALLOWED_IPS[0] != PUBLIC_KEY[0] && ALLOWED_IPS[0] != PRESHARED_KEY[0];
  }

  lemma OtherLinesSayNothing(p: Peer)
    ensures ReadLine(p, TrimSpace("[Peer]")) == p && ReadLine(p, TrimSpace("")) == p
  {
    TrimSpaceOfTrimmed("[Peer]");
    assert "[Peer]"[0] != PUBLIC_KEY[0] && "[Peer]"[0] != PRESHARED_KEY[0] && "[Peer]"[0] != ALLOWED_IPS[0];
  }

  lemma ReadBodyCons(p: Peer, line: string, rest: seq<string>)
    ensures ReadBody(p, [line] + rest) == ReadBody(ReadLine(p, TrimSpace(line)), rest)
  {
    assert ([line] + rest)[1..] == rest;
  }

  /** The parser reads the printed body back. */
  lemma BodyReadsBack(p: Peer)
    requires Printable(p)
    ensures ReadBody(NewPeer(p.name), BodyLines(p)) == p
  {
    var p0 := NewPeer(p.name);
    var p1 := p0.(publicKey := p.publicKey);
    var p2 := p1.(preshared := p.preshared);
    var l1, l2, l3 := PUBLIC_KEY + p.publicKey, PRESHARED_KEY + p.preshared, ALLOWED_IPS + p.allowedIPs;
    OtherLinesSayNothing(p0);
    OtherLinesSayNothing(p);
    PublicKeyReadsBack(p0, p.publicKey);
    PresharedReadsBack(p1, p.preshared);
    AllowedReadsBack(p2, p.allowedIPs);
    assert ReadBody(p, [""]) == p by { ReadBodyCons(p, "", []); }
    ReadBodyCons(p2, l3, [""]);
    ReadBodyCons(p1, l2, [l3] + [""]);
    ReadBodyCons(p0, l1, [l2] + ([l3] + [""]));
    ReadBodyCons(p0, "[Peer]", [l1] + ([l2] + ([l3] + [""])));
    assert BodyLines(p) == ["[Peer]"] + ([l1] + ([l2] + ([l3] + [""])));
  }

  lemma BodyHasNoMarker(p: Peer)
    ensures ToDoc(BodyLines(p)) == Doc(BodyLines(p), [])
  {
    KeyLineIsNoMarker(PUBLIC_KEY, p.publicKey);
    KeyLineIsNoMarker(PRESHARED_KEY, p.preshared);
    KeyLineIsNoMarker(ALLOWED_IPS, p.allowedIPs);
    KeyLineIsNoMarker("[Peer]", "");
    assert "[Peer]" + "" == "[Peer]";
    PlainLines(BodyLines(p));
  }

  lemma {:induction false} PlainLines(lines: seq<string>)
    requires forall i :: 0 <= i < |lines| ==> NameOn(lines[i]) == None
    ensures ToDoc(lines) == Doc(lines, [])
    decreases |lines|
  {
    if lines != [] {
      PlainLines(lines[1..]);
      assert lines == [lines[0]] + lines[1..];
    }
  }

  /** A line that begins with a visible character other than `#`. */
  lemma KeyLineIsNoMarker(key: string, value: string)
    requires key != "" && !IsSpace(key[0]) && key[0] != '#'
    ensures TrimSpace(key + value) != "" && NameOn(key + value) == None
  {
    VisibleStart(key + value);
  }

  lemma {:induction false} TrimRightKeepsStart(s: string)
    requires s != "" && !IsSpace(s[0])
    ensures TrimRight(s) != "" && TrimRight(s)[0] == s[0]
  {
    if IsSpace(s[|s| - 1]) {
      TrimRightKeepsStart(s[..|s| - 1]);
    }
  }

  lemma VisibleStart(s: string)
    requires s != "" && !IsSpace(s[0])
    ensures TrimSpace(s) != "" && TrimSpace(s)[0] == s[0]
  {
    TrimRightKeepsStart(s);
  }

  lemma BodyIsClosed(p: Peer)
    ensures Closed(BodyLines(p)) && FirstBlank(BodyLines(p)) == 4
  {
    KeyLineIsNoMarker(PUBLIC_KEY, p.publicKey);
    KeyLineIsNoMarker(PRESHARED_KEY, p.preshared);
    KeyLineIsNoMarker(ALLOWED_IPS, p.allowedIPs);
    KeyLineIsNoMarker("[Peer]", "");
    assert "[Peer]" + "" == "[Peer]";
    FirstBlankAppend(BodyLines(p)[..4], [""]);
    assert BodyLines(p) == BodyLines(p)[..4] + [""];
    NoBlankLines(BodyLines(p)[..4]);
  }

  lemma {:induction false} NoBlankLines(lines: seq<string>)
    requires forall i :: 0 <= i < |lines| ==> TrimSpace(lines[i]) != ""
    ensures !HasBlank(lines)
    decreases |lines|
  {
    if lines != [] {
      NoBlankLines(lines[1..]);
    }
  }

  lemma AddNoLines(d: Doc)
    ensures AddLines(d, []) == d
  {
    if d.blocks != [] {
      var n := |d.blocks| - 1;
      assert d.blocks[n].body + [] == d.blocks[n].body;
      assert d.blocks == d.blocks[..n] + [d.blocks[n]];
    }
  }

  /** The block's lines, parsed on their own, are one closed block. */
  lemma AppendedDoc(content: string, p: Peer)
    requires OneLineFields(p)
    ensures var d := ToDoc(Split(content, '\n'));
            ToDoc(Split(Appended(content, p), '\n')) ==
            Doc(d.preamble, d.blocks + [Block(MarkerLine(p.name), p.name, BodyLines(p))])
  {
    var d := ToDoc(Split(content, '\n'));
    var lines := [MarkerLine(p.name)] + BodyLines(p);
    AppendedLines(content, p);
    MarkerLineNames(p.name);
    BodyHasNoMarker(p);
    assert lines[1..] == BodyLines(p);
    assert ToDoc(lines) == Doc([], [Block(MarkerLine(p.name), p.name, BodyLines(p))]);
    ToDocAppend(Split(content, '\n'), lines);
    AddNoLines(d);
  }

  lemma {:induction false} PeersOfAppend(a: seq<Block>, b: seq<Block>)
    ensures PeersOf(a + b) == PeersOf(a) + PeersOf(b)
    decreases |a|
  {
    if a == [] {
      assert a + b == b;
    } else {
      assert (a + b)[1..] == a[1..] + b;
      PeersOfAppend(a[1..], b);
    }
  }

  /** For every text, parsing after an append gives the old peers and then the
      appended one, field by field; well-formedness is kept. */
  lemma AppendRoundTrip(content: string, p: Peer)
    requires Printable(p)
    ensures Parsed(Appended(content, p)) == Parsed(content) + [p]
    ensures WellFormed(content) ==> WellFormed(Appended(content, p))
  {
    var blocks := ToDoc(Split(content, '\n')).blocks;
    var added := Block(MarkerLine(p.name), p.name, BodyLines(p));
    AppendedDoc(content, p);
    ParsedIsBlocks(content);
    ParsedIsBlocks(Appended(content, p));
    PeersOfAppend(blocks, [added]);
    BodyReadsBack(p);
    BodyIsClosed(p);
    assert PeersOf([added]) == [p] by { assert [added][1..] == []; }
  }

  lemma AdjacentMarkersDoc(first: string, second: string)
    requires IsName(first) && IsName(second)
    ensures var a, b := MarkerLine(first), MarkerLine(second);
            && Split(a + "\n" + b, '\n') == [a, b]
            && ToDoc([a, b]) == Doc([], [Block(a, first, []), Block(b, second, [])])
  {
    var a, b := MarkerLine(first), MarkerLine(second);
    NameHasNoNewline(first);
    NameHasNoNewline(second);
    SplitWithoutSep(a, '\n');
    SplitWithoutSep(b, '\n');
    SplitConcat(a, '\n', b);
    MarkerLineNames(first);
    MarkerLineNames(second);
    assert [a, b][1..] == [b] && [b][1..] == [];
    assert ToDoc([b]) == Doc([], [Block(b, second, [])]);
  }

  /** Two markers without a blank line between them: removing the first peer
      loses the second. */
  lemma RemovalLosesSuccessor(first: string, second: string)
    requires IsName(first) && IsName(second) && first != second
    ensures var content := MarkerLine(first) + "\n" + MarkerLine(second);
            Parsed(Removed(content, first)) != Without(first, Parsed(content))
  {
    AdjacentMarkersDoc(first, second);
    var blocks := ToDoc([MarkerLine(first), MarkerLine(second)]).blocks;
    assert blocks[0].name == first && blocks[0 + 1].name != first && !HasBlank(blocks[0].body);
    RemovalIsExactIff(MarkerLine(first) + "\n" + MarkerLine(second), first);
  }

  /** A marker, an empty line, a second marker, an empty line and a key line. */
  function LateKeyLines(first: string, second: string, key: string): seq<string> {
    [MarkerLine(first), "", MarkerLine(second), "", PUBLIC_KEY + key]
  }

  lemma LateKeyDoc(first: string, second: string, key: string)
    requires IsName(first) && IsName(second)
    ensures ToDoc(LateKeyLines(first, second, key)) ==
            Doc([], [Block(MarkerLine(first), first, [""]), Block(MarkerLine(second), second, ["", PUBLIC_KEY + key])])
  {
    MarkerLineNames(first);
    MarkerLineNames(second);
    KeyLineIsNoMarker(PUBLIC_KEY, key);
    EmptyLineIsNoMarker();
    TwoMarkersDoc(MarkerLine(first), first, MarkerLine(second), second, "", PUBLIC_KEY + key);
  }

  lemma TwoMarkersDoc(first: string, firstName: string, second: string, secondName: string, blank: string, last: string)
    requires NameOn(first) == Some(firstName) && NameOn(second) == Some(secondName)
    requires NameOn(blank) == None && NameOn(last) == None
    ensures ToDoc([first, blank, second, blank, last]) ==
            Doc([], [Block(first, firstName, [blank]), Block(second, secondName, [blank, last])])
  {
    PlainLines([blank, last]);
    var tail := [second] + [blank, last];
    ToDocMarker(second, [blank, last]);
    var b := Block(second, secondName, [blank, last]);
    assert [b] + [] == [b] && ToDoc(tail) == Doc([], [b]);
    ToDocPlain(blank, tail);
    assert [blank] + [] == [blank] && ToDoc([blank] + tail) == Doc([blank], [b]);
    ToDocMarker(first, [blank] + tail);
    assert [Block(first, firstName, [blank])] + [b] == [Block(first, firstName, [blank]), b];
    assert [first, blank, second, blank, last] == [first] + ([blank] + tail);
  }

  lemma EmptyLineIsNoMarker()
    ensures NameOn("") == None
  {
  }

  lemma RemoveOnlyBlock(name: string, b: Block)
    requires b.name == name
    ensures Leftover(name, [b]) == Residue(b.body) && WithLeftovers(name, [b]) == [] && WithoutBlocks(name, [b]) == []
  {
    assert [b][1..] == [];
    var residue, none := Residue(b.body), Leftover(name, []);
    assert none == [];
    assert residue + none == residue;
  }

  lemma KeepOnlyBlock(name: string, a: Block, rest: seq<Block>)
    requires a.name != name
    ensures WithLeftovers(name, [a] + rest) ==
            [a.(body := a.body + Leftover(name, rest))] + WithLeftovers(name, rest)
    ensures WithoutBlocks(name, [a] + rest) == [a] + WithoutBlocks(name, rest)
  {
    var all := [a] + rest;
    assert all[0] == a && all[1..] == rest;
  }

  lemma RemoveSecondBlock(name: string, a: Block, b: Block)
    requires a.name != name && b.name == name
    ensures !DragsAlong(name, [a, b])
    ensures WithLeftovers(name, [a, b]) == [a.(body := a.body + Residue(b.body))]
    ensures WithoutBlocks(name, [a, b]) == [a]
  {
    RemoveOnlyBlock(name, b);
    KeepOnlyBlock(name, a, [b]);
    assert [a, b] == [a] + [b];
    var kept := a.(body := a.body + Residue(b.body));
    assert [kept] + [] == [kept] && [a] + [] == [a];
  }

  lemma LateKeyIsRead(name: string, key: string)
    requires EndsClean(key)
    ensures Residue(["", PUBLIC_KEY + key]) == [PUBLIC_KEY + key]
    ensures ReadBody(NewPeer(name), [""]) == NewPeer(name)
    ensures ReadBody(NewPeer(name), ["", PUBLIC_KEY + key]) == NewPeer(name).(publicKey := key)
  {
    var last := PUBLIC_KEY + key;
    OtherLinesSayNothing(NewPeer(name));
    PublicKeyReadsBack(NewPeer(name), key);
    ReadBodyCons(NewPeer(name), "", []);
    ReadBodyCons(NewPeer(name), "", [last]);
    ReadBodyCons(NewPeer(name), last, []);
    assert [""] + [] == [""] && [""] + [last] == ["", last] && [last] + [] == [last];
    assert FirstBlank(["", last]) == 0;
  }

  /** Key lines after the blank line of a block: removing that peer gives its key
      to the peer before it. */
  lemma RemovalMovesLateKey(first: string, second: string, key: string)
    requires IsName(first) && IsName(second) && first != second
    requires EndsClean(key) && '\n' !in key && key != ""
    ensures var content := Join(LateKeyLines(first, second, key), '\n');
            && Parsed(Removed(content, second)) == [NewPeer(first).(publicKey := key)]
            && Without(second, Parsed(content)) == [NewPeer(first)]
  {
    var lines := LateKeyLines(first, second, key);
    NameHasNoNewline(first);
    NameHasNoNewline(second);
    SplitJoin(lines, '\n');
    LateKeyDoc(first, second, key);
    var content, d := Join(lines, '\n'), ToDoc(lines);
    RemovedPeers(content, second);
    LateKeyPeers(first, second, key);
  }

  lemma LateKeyPeers(first: string, second: string, key: string)
    requires first != second && EndsClean(key)
    ensures var a := Block(MarkerLine(first), first, [""]);
            var d := Doc([], [a, Block(MarkerLine(second), second, ["", PUBLIC_KEY + key])]);
            && PeersOf(RemoveBlocks(second, d, false).blocks) == [NewPeer(first).(publicKey := key)]
            && PeersOf(WithoutBlocks(second, d.blocks)) == [NewPeer(first)]
  {
    var a := Block(MarkerLine(first), first, [""]);
    var b := Block(MarkerLine(second), second, ["", PUBLIC_KEY + key]);
    RemoveSecondBlock(second, a, b);
    RemovalLeavesLeftovers(second, Doc([], [a, b]), false);
    LateKeyIsRead(first, key);
    assert [""] + [PUBLIC_KEY + key] == ["", PUBLIC_KEY + key];
  }

  // ---- undoing an append ---------------------------------------------------

  ghost predicate NoMarkerFor(name: string, lines: seq<string>) {
    forall i :: 0 <= i < |lines| ==> NameOn(lines[i]) != Some(name)
  }

  ghost predicate NoBlockFor(name: string, blocks: seq<Block>) {
    forall i :: 0 <= i < |blocks| ==> blocks[i].name != name
  }

  lemma {:induction false} UnnamedBlocksHaveNoMarker(name: string, lines: seq<string>)
    requires NoBlockFor(name, ToDoc(lines).blocks)
    ensures NoMarkerFor(name, lines)
    decreases |lines|
  {
    if lines != [] {
      var later, blocks := ToDoc(lines[1..]).blocks, ToDoc(lines).blocks;
      if NameOn(lines[0]).Some? {
        assert blocks[0].name == NameOn(lines[0]).value;
        assert later == blocks[1..];
      }
      UnnamedBlocksHaveNoMarker(name, lines[1..]);
    }
  }

  /** No peer of that name was parsed, so no line is a marker for it. */
  lemma UnparsedNameHasNoMarker(content: string, name: string)
    requires name !in NamesOf(Parsed(content))
    ensures NoMarkerFor(name, Split(content, '\n'))
  {
    ParsedIsBlocks(content);
    var blocks := ToDoc(Split(content, '\n')).blocks;
    forall i | 0 <= i < |blocks| ensures blocks[i].name != name {
      PeerOfKeepsName(blocks[i]);
      assert Parsed(content)[i].name in NamesOf(Parsed(content));
    }
    UnnamedBlocksHaveNoMarker(name, Split(content, '\n'));
  }

  lemma {:induction false} KeptLinesPass(name: string, a: seq<string>, b: seq<string>)
    requires IsName(name) && NoMarkerFor(name, a)
    ensures KeptLines(name, a + b, false) == a + KeptLines(name, b, false)
    decreases |a|
  {
    if a == [] {
      assert a + b == b;
    } else {
      assert (a + b)[1..] == a[1..] + b;
      MarkersAgree(TrimSpace(a[0]), name);
      KeptLinesPass(name, a[1..], b);
    }
  }

  lemma {:induction false} SkippedUpToBlank(name: string, lines: seq<string>)
    requires IsName(name) && NoMarkerFor(name, lines)
    ensures KeptLines(name, lines, true) == Residue(lines)
    decreases |lines|
  {
    if lines != [] {
      MarkersAgree(TrimSpace(lines[0]), name);
      if TrimSpace(lines[0]) == "" {
        KeptLinesPass(name, lines[1..], []);
        assert lines[1..] + [] == lines[1..];
      } else {
        SkippedUpToBlank(name, lines[1..]);
      }
    }
  }

  /** Removing the peer just appended gives back the original text with exactly
      one newline at its end, whatever the text was. */
  lemma RemovalUndoesAppend(content: string, p: Peer)
    requires OneLineFields(p) && p.name !in NamesOf(Parsed(content))
    ensures Removed(Appended(content, p), p.name) == OneNewline(content)
  {
    var lines := Split(content, '\n');
    var block := [MarkerLine(p.name)] + BodyLines(p);
    AppendedLines(content, p);
    UnparsedNameHasNoMarker(content, p.name);
    KeptLinesPass(p.name, lines, block);
    MarkerLineNames(p.name);
    MarkersAgree(TrimSpace(MarkerLine(p.name)), p.name);
    BodyHasNoMarker(p);
    BodyIsClosed(p);
    UnnamedBlocksHaveNoMarker(p.name, BodyLines(p));
    SkippedUpToBlank(p.name, BodyLines(p));
    assert block[1..] == BodyLines(p);
    assert KeptLines(p.name, block, false) == [];
    assert lines + [] == lines;
    JoinSplit(content, '\n');
  }

  /** So appending and removing again leaves the parsed peers as they were. */
  lemma UndoneAppendKeepsPeers(content: string, p: Peer)
    requires OneLineFields(p) && p.name !in NamesOf(Parsed(content))
    ensures Parsed(Removed(Appended(content, p), p.name)) == Parsed(content)
    ensures WellFormed(content) ==> WellFormed(Removed(Appended(content, p), p.name))
  {
    RemovalUndoesAppend(content, p);
    OneNewlineKeepsPeers(content);
  }

  // ---- addresses -----------------------------------------------------------

  /** Both addresses come back out of the allowed IPs that were printed from them. */
  lemma AddressesReadBack(ipv4: string, ipv6: string)
    requires Word(ipv4) && Word(ipv6) && '.' in ipv4 && ':' in ipv6 && '.' !in ipv6
    ensures AddressesOf(ipv4 + "/32," + ipv6 + "/128") == (ipv4, ipv6)
  {
    var a, b := ipv4 + "/32", ipv6 + "/128";
    assert ipv4 + "/32," + ipv6 + "/128" == a + [','] + b;
    SplitConcat(a, ',', b);
    SplitWithoutSep(a, ',');
    SplitWithoutSep(b, ',');
    TrimSpaceOfTrimmed(a);
    TrimSpaceOfTrimmed(b);
    assert '.' in a && ':' in b && '.' !in b;
    assert a[|a| - 3..] == "/32" && a[..|a| - 3] == ipv4;
    assert b[|b| - 4..] == "/128" && b[..|b| - 4] == ipv6;
    var parts := [a] + [b];
    assert parts[1..] == [b] && parts[1..][1..] == [];
    assert PickAddresses([b], ipv4, "") == PickAddresses([], ipv4, ipv6);
    assert PickAddresses(parts, "", "") == PickAddresses([b], ipv4, "");
  }
}
