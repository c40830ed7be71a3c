/** The lines of a server configuration letter by letter: what a marker, a key
    line and a list of addresses look like. */
module ConfLines {
  import opened Common
  import opened Text
  import opened WgConf
  import opened ConfDoc
  import opened ConfRoundTrip

  // ---- characters ----------------------------------------------------------

  /** Space, tab, newline, form feed and return; names are made of ASCII letters,
      digits, the underscore and the hyphen. */
  lemma CharacterClasses(c: char)
    ensures IsBlank(c) <==> c as int in {32, 9, 10, 12, 13}
    ensures IsSpace(c) <==> c as int in {32, 9, 10, 11, 12, 13}
    ensures IsNameChar(c) <==>
            var code := c as int;
            48 <= code <= 57 || 65 <= code <= 90 || 97 <= code <= 122 || code == 95 || code == 45
  {
  }

  /** Trimming takes off white space at both ends and nothing else. */
  lemma TrimSpaceIs(s: string) returns (i: nat, j: nat)
    ensures i <= j <= |s| && TrimSpace(s) == s[i..j]
    ensures forall k :: 0 <= k < i || j <= k < |s| ==> IsSpace(s[k])
    ensures i < j ==> !IsSpace(s[i]) && !IsSpace(s[j - 1])
  {
    i := TrimLeftIs(s);
    var n := TrimRightIs(s[i..]);
    j := i + n;
    SubIndex(s, i);
  }

  lemma SubIndex(s: string, i: nat)
    requires i <= |s|
    ensures forall n :: 0 <= n <= |s| - i ==> s[i..][..n] == s[i..i + n]
    ensures forall k {:trigger s[k]} :: i <= k < |s| ==> s[i..][k - i] == s[k]
  {
  }

  lemma {:induction false} TrimLeftIs(s: string) returns (i: nat)
    ensures i <= |s| && TrimLeft(s) == s[i..]
    ensures (forall k :: 0 <= k < i ==> IsSpace(s[k])) && (i < |s| ==> !IsSpace(s[i]))
  {
    i := 0;
    if s != "" && IsSpace(s[0]) {
      var n := TrimLeftIs(s[1..]);
      i := n + 1;
      assert forall k :: 0 < k < i ==> s[k] == s[1..][k - 1];
    }
  }

  lemma {:induction false} TrimRightIs(s: string) returns (j: nat)
    ensures j <= |s| && TrimRight(s) == s[..j]
    ensures (forall k :: j <= k < |s| ==> IsSpace(s[k])) && (j > 0 ==> !IsSpace(s[j - 1]))
  {
    j := |s|;
    if s != "" && IsSpace(s[|s| - 1]) {
      var shorter := s[..|s| - 1];
      j := TrimRightIs(shorter);
      assert shorter[..j] == s[..j];
      assert forall k :: 0 <= k < |shorter| ==> s[k] == shorter[k];
    }
  }

  // ---- markers -------------------------------------------------------------

  /** The line is `###`, blanks or nothing, `Client`, blanks, the name, and blanks
      or nothing. */
  ghost predicate Spells(line: string, a: string, b: string, name: string, c: string) {
    AllBlank(a) && AllBlank(b) && b != "" && AllBlank(c) && line == "###" + a + "Client" + b + name + c
  }

  lemma Nest(x: string, a: string, y: string, b: string, name: string, c: string)
    ensures x + a + y + b + name + c == x + (a + (y + (b + (name + c))))
  {
  }

  lemma SpelledIsMarker(line: string, a: string, b: string, name: string, c: string)
    requires IsName(name) && Spells(line, a, b, name, c)
    ensures MarkerName(line) == Some(name)
  {
    var after := b + (name + c);
    Nest("###", a, "Client", b, name, c);
    DropFirst("###", a + ("Client" + after));
    SkipBlanksOf(a, "Client" + after);
    DropFirst("Client", after);
    assert AfterClient(line) == Some(after);
    MarkIsName(b, name, c);
  }

  lemma PrefixSplits(s: string, prefix: string)
    requires HasPrefix(s, prefix)
    ensures s == prefix + s[|prefix|..]
  {
  }

  lemma ClientIsSpelled(line: string) returns (a: string)
    requires AfterClient(line).Some?
    ensures AllBlank(a) && line == "###" + (a + ("Client" + AfterClient(line).value))
  {
    var tail := line[3..];
    var k := SkipBlanksSplits(tail);
    a := tail[..k];
    var rest := SkipBlanks(tail);
    PrefixSplits(line, "###");
    PrefixSplits(rest, "Client");
    assert tail == a + rest;
  }

  lemma NameIsSpelled(after: string, name: string) returns (b: string, c: string)
    requires after != "" && IsBlank(after[0]) && IsName(name) && DropBlanks(SkipBlanks(after)) == name
    ensures AllBlank(b) && b != "" && AllBlank(c) && after == b + (name + c)
  {
    var i, n := BlanksAround(after);
    b, c := after[..i], after[i + n..];
    assert after[i] == name[0] && IsNameChar(name[0]);
    assert after == b + (after[i..i + n] + c);
  }

  lemma MarkerIsSpelled(line: string, name: string) returns (a: string, b: string, c: string)
    requires MarkerName(line) == Some(name)
    ensures IsName(name) && Spells(line, a, b, name, c)
  {
    a := ClientIsSpelled(line);
    b, c := NameIsSpelled(AfterClient(line).value, name);
    Nest("###", a, "Client", b, name, c);
  }

  /** A trimmed line is the marker of a name exactly when it is spelled so. */
  lemma MarkerNameIff(line: string, name: string)
    ensures MarkerName(line) == Some(name) <==>
            IsName(name) && exists a, b, c :: Spells(line, a, b, name, c)
  {
    if MarkerName(line) == Some(name) {
      var a, b, c := MarkerIsSpelled(line, name);
    }
    if IsName(name) && exists a, b, c :: Spells(line, a, b, name, c) {
      var a, b, c :| Spells(line, a, b, name, c);
      SpelledIsMarker(line, a, b, name, c);
    }
  }

  // ---- key lines -----------------------------------------------------------

  /** What a trimmed line inside a block says: everything after the key, the equals
      sign and the spaces around it. */
  lemma KeyLinesAre(p: Peer, line: string)
    ensures HasPrefix(line, "PublicKey = ") ==> ReadLine(p, line) == p.(publicKey := line[12..])
    ensures HasPrefix(line, "PresharedKey = ") ==> ReadLine(p, line) == p.(preshared := line[15..])
    ensures HasPrefix(line, "AllowedIPs = ") ==>
              var ips := AddressesOf(line[13..]);
              ReadLine(p, line) == p.(allowedIPs := line[13..], ipv4 := ips.0, ipv6 := ips.1)
    ensures !HasPrefix(line, "PublicKey = ") && !HasPrefix(line, "PresharedKey = ") && !HasPrefix(line, "AllowedIPs = ")
            ==> ReadLine(p, line) == p
  {
    assert HasPrefix(line, "PublicKey = ") ==> line[0] == 'P' && line[1] == 'u';
    assert HasPrefix(line, "PresharedKey = ") ==> line[0] == 'P' && line[1] == 'r';
    assert HasPrefix(line, "AllowedIPs = ") ==> line[0] == 'A';
  }

  /** The lines of a peer block. */
  lemma BlockIs(p: Peer)
    ensures [MarkerLine(p.name)] + BodyLines(p) ==
            ["### Client " + p.name, "[Peer]", "PublicKey = " + p.publicKey, "PresharedKey = " + p.preshared,
             "AllowedIPs = " + p.allowedIPs, ""]
  {
  }

  /** An append adds exactly these lines. */
  lemma AppendAddsLines(content: string, p: Peer)
    requires OneLineFields(p)
    ensures Split(Appended(content, p), '\n') ==
            Split(content, '\n') +
            ["### Client " + p.name, "[Peer]", "PublicKey = " + p.publicKey, "PresharedKey = " + p.preshared,
             "AllowedIPs = " + p.allowedIPs, ""]
  {
    AppendedLines(content, p);
    BlockIs(p);
  }

  lemma JoinMore(first: string, lines: seq<string>, text: string)
    requires lines != [] && Join(lines, '\n') == text
    ensures Join([first] + lines, '\n') == first + "\n" + text
  {
    assert ([first] + lines)[1..] == lines;
  }

  lemma JoinSix(a: string, b: string, c: string, d: string, e: string)
    ensures Join([a, b, c, d, e, ""], '\n') == a + "\n" + b + "\n" + c + "\n" + d + "\n" + e + "\n"
  {
    var text4 := d + "\n" + (e + "\n");
    var text3 := c + "\n" + text4;
    var text2 := b + "\n" + text3;
    assert [e, ""] == [e] + [""] && [d, e, ""] == [d] + [e, ""] && [c, d, e, ""] == [c] + [d, e, ""];
    assert [b, c, d, e, ""] == [b] + [c, d, e, ""] && [a, b, c, d, e, ""] == [a] + [b, c, d, e, ""];
    JoinMore(e, [""], "");
    JoinMore(d, [e, ""], e + "\n");
    JoinMore(c, [d, e, ""], text4);
    JoinMore(b, [c, d, e, ""], text3);
    JoinMore(a, [b, c, d, e, ""], text2);
    assert a + "\n" + text2 == a + "\n" + b + "\n" + c + "\n" + d + "\n" + e + "\n";
  }

  lemma BlockDoc(p: Peer)
    requires Printable(p)
    ensures PeersOf(ToDoc([MarkerLine(p.name)] + BodyLines(p)).blocks) == [p]
  {
    MarkerLineNames(p.name);
    BodyHasNoMarker(p);
    ToDocMarker(MarkerLine(p.name), BodyLines(p));
    BodyReadsBack(p);
    var b := Block(MarkerLine(p.name), p.name, BodyLines(p));
    assert [b] + [] == [b] && [b][1..] == [];
  }

  /** The text of one block, line by line, is read as one peer with exactly the
      values in it. */
  lemma BlockTextIsRead(name: string, key: string, shared: string, allowed: string)
    requires IsName(name) && EndsClean(key) && EndsClean(shared) && EndsClean(allowed)
    requires '\n' !in key && '\n' !in shared && '\n' !in allowed
    ensures var text := "### Client " + name + "\n" + "[Peer]" + "\n" + ("PublicKey = " + key) + "\n"
                        + ("PresharedKey = " + shared) + "\n" + ("AllowedIPs = " + allowed) + "\n";
            var ips := AddressesOf(allowed);
            Parsed(text) == [Peer(name, key, shared, allowed, ips.0, ips.1)]
  {
    var ips := AddressesOf(allowed);
    var p := Peer(name, key, shared, allowed, ips.0, ips.1);
    var lines := [MarkerLine(name)] + BodyLines(p);
    BlockIs(p);
    JoinSix("### Client " + name, "[Peer]", "PublicKey = " + key, "PresharedKey = " + shared,
            "AllowedIPs = " + allowed);
    NameHasNoNewline(name);
    SplitJoin(lines, '\n');
    ParsedIsBlocks(Join(lines, '\n'));
    BlockDoc(p);
  }

  // ---- addresses -----------------------------------------------------------

  predicate IsDotted(part: string) {
    '.' in TrimSpace(part)
  }

  predicate IsColoned(part: string) {
    '.' !in TrimSpace(part) && ':' in TrimSpace(part)
  }

  lemma {:induction false} PickedIPv4(parts: seq<string>, ipv4: string, ipv6: string, k: int)
    requires -1 <= k < |parts| && (k >= 0 ==> IsDotted(parts[k]))
    requires forall j :: k < j < |parts| ==> !IsDotted(parts[j])
    ensures PickAddresses(parts, ipv4, ipv6).0 == if k >= 0 then TrimSuffix(TrimSpace(parts[k]), "/32") else ipv4
    decreases |parts|
  {
    if parts != [] {
      var part, rest := TrimSpace(parts[0]), parts[1..];
      assert forall j :: 0 <= j < |rest| ==> rest[j] == parts[j + 1];
      var next4 := if '.' in part then TrimSuffix(part, "/32") else ipv4;
      var next6 := if '.' !in part && ':' in part then TrimSuffix(part, "/128") else ipv6;
      PickedIPv4(rest, next4, next6, if k > 0 then k - 1 else -1);
    }
  }

  lemma {:induction false} PickedIPv6(parts: seq<string>, ipv4: string, ipv6: string, k: int)
    requires -1 <= k < |parts| && (k >= 0 ==> IsColoned(parts[k]))
    requires forall j :: k < j < |parts| ==> !IsColoned(parts[j])
    ensures PickAddresses(parts, ipv4, ipv6).1 == if k >= 0 then TrimSuffix(TrimSpace(parts[k]), "/128") else ipv6
    decreases |parts|
  {
    if parts != [] {
      var part, rest := TrimSpace(parts[0]), parts[1..];
      assert forall j :: 0 <= j < |rest| ==> rest[j] == parts[j + 1];
      var next4 := if '.' in part then TrimSuffix(part, "/32") else ipv4;
      var next6 := if '.' !in part && ':' in part then TrimSuffix(part, "/128") else ipv6;
      PickedIPv6(rest, next4, next6, if k > 0 then k - 1 else -1);
    }
  }

  /** Of a comma-separated list, the last part with a dot is the IPv4 address and
      the last other part with a colon the IPv6 one, each trimmed and without its
      `/32` or `/128`; a missing one is empty. */
  lemma AddressesAre(allowed: string, i: int, j: int)
    requires var parts := Split(allowed, ',');
             && -1 <= i < |parts| && (i >= 0 ==> IsDotted(parts[i]))
             && (forall k :: i < k < |parts| ==> !IsDotted(parts[k]))
             && -1 <= j < |parts| && (j >= 0 ==> IsColoned(parts[j]))
             && (forall k :: j < k < |parts| ==> !IsColoned(parts[k]))
    ensures var parts := Split(allowed, ',');
            && AddressesOf(allowed).0 == (if i >= 0 then TrimSuffix(TrimSpace(parts[i]), "/32") else "")
            && AddressesOf(allowed).1 == (if j >= 0 then TrimSuffix(TrimSpace(parts[j]), "/128") else "")
  {
    PickedIPv4(Split(allowed, ','), "", "", i);
    PickedIPv6(Split(allowed, ','), "", "", j);
  }

  lemma SuffixIsDropped(s: string, suffix: string)
    ensures TrimSuffix(s + suffix, suffix) == s
    ensures |s| < |suffix| || s[|s| - |suffix|..] != suffix ==> TrimSuffix(s, suffix) == s
  {
    assert (s + suffix)[|s|..] == suffix && (s + suffix)[..|s|] == s;
  }
}
