/** The server configuration text: reading peers, appending and removing peer
    blocks (internal/wgconf/wgconf.go). */
module WgConf {
  import opened Common
  import opened Text

  datatype Peer = Peer(name: string, publicKey: string, preshared: string, allowedIPs: string,
                       ipv4: string, ipv6: string)

  // ---- markers -------------------------------------------------------------

  /** What a regular expression's `\s` matches. */
  predicate IsBlank(c: char) {
    c == ' ' || c == '\t' || c == '\n' || c == '\r' || c == '\U{000C}'
  }

  predicate AllBlank(s: string) {
    forall i :: 0 <= i < |s| ==> IsBlank(s[i])
  }

  function SkipBlanks(s: string): string {
    if s != "" && IsBlank(s[0]) then SkipBlanks(s[1..]) else s
  }

  function DropBlanks(s: string): string {
    if s != "" && IsBlank(s[|s| - 1]) then DropBlanks(s[..|s| - 1]) else s
  }

  predicate IsNameChar(c: char) {
    'a' <= c <= 'z' || 'A' <= c <= 'Z' || '0' <= c <= '9' || c == '_' || c == '-'
  }

  predicate IsName(s: string) {
    s != "" && forall i :: 0 <= i < |s| ==> IsNameChar(s[i])
  }

  /** What follows `###`, blanks and `Client`, if the line begins with them. */
  function AfterClient(line: string): Option<string> {
    if !HasPrefix(line, "###") then None
    else
      var rest := SkipBlanks(line[3..]);
      if HasPrefix(rest, "Client") then Some(rest[6..]) else None
  }

  /** The name of a client marker line. */
  function MarkerName(line: string): Option<string> {
    match AfterClient(line)
    case None => None
    case Some(after) =>
      var name := DropBlanks(SkipBlanks(after));
      if after != "" && IsBlank(after[0]) && IsName(name) then Some(name) else None
  }

  /** The line is a marker for exactly this text, wherever blanks allow it. */
  predicate MarksName(line: string, name: string) {
    var after := AfterClient(line);
    after.Some? &&
    exists i | 1 <= i <= |after.value| - |name| ::
      && AllBlank(after.value[..i])
      && after.value[i..i + |name|] == name
      && AllBlank(after.value[i + |name|..])
  }

  // ---- parsing -------------------------------------------------------------

  /** The last address with a dot and the last other one with a colon. */
  function PickAddresses(parts: seq<string>, ipv4: string, ipv6: string): (string, string)
    decreases |parts|
  {
    if parts == [] then (ipv4, ipv6)
    else
      var part := TrimSpace(parts[0]);
      if '.' in part then PickAddresses(parts[1..], TrimSuffix(part, "/32"), ipv6)
      else if ':' in part then PickAddresses(parts[1..], ipv4, TrimSuffix(part, "/128"))
      else PickAddresses(parts[1..], ipv4, ipv6)
  }

  function AddressesOf(allowed: string): (string, string) {
    PickAddresses(Split(allowed, ','), "", "")
  }

  method SplitAllowedIPs(allowed: string) returns (ipv4: string, ipv6: string)
    ensures (ipv4, ipv6) == AddressesOf(allowed)
  {
    ipv4, ipv6 := "", "";
    var parts := Split(allowed, ',');
    for i := 0 to |parts|
      invariant PickAddresses(parts[i..], ipv4, ipv6) == AddressesOf(allowed)
    {
      var part := TrimSpace(parts[i]);
      if '.' in part {
        ipv4 := TrimSuffix(part, "/32");
      } else if ':' in part {
        ipv6 := TrimSuffix(part, "/128");
      }
    }
  }

  const PUBLIC_KEY := "PublicKey = "
  const PRESHARED_KEY := "PresharedKey = "
  const ALLOWED_IPS := "AllowedIPs = "

  predicate IsKeyLine(line: string) {
    HasPrefix(line, PUBLIC_KEY) || HasPrefix(line, PRESHARED_KEY) || HasPrefix(line, ALLOWED_IPS)
  }

  /** What a trimmed line inside a block says about its peer. */
  function ReadLine(p: Peer, line: string): Peer {
    if HasPrefix(line, PUBLIC_KEY) then p.(publicKey := TrimPrefix(line, PUBLIC_KEY))
    else if HasPrefix(line, PRESHARED_KEY) then p.(preshared := TrimPrefix(line, PRESHARED_KEY))
    else if HasPrefix(line, ALLOWED_IPS) then
      var allowed := TrimPrefix(line, ALLOWED_IPS);
      var ips := AddressesOf(allowed);
      p.(allowedIPs := allowed, ipv4 := ips.0, ipv6 := ips.1)
    else p
  }

  function NewPeer(name: string): Peer {
    Peer(name, "", "", "", "", "")
  }

  datatype ParseState = ParseState(current: Option<Peer>, peers: seq<Peer>)

  const PARSE_START := ParseState(None, [])

  function ClosePeer(st: ParseState): seq<Peer> {
    if st.current.Some? then st.peers + [st.current.value] else st.peers
  }

  function ParseLine(st: ParseState, raw: string): ParseState {
    var line := TrimSpace(raw);
    var marker := MarkerName(line);
    if marker.Some? then ParseState(Some(NewPeer(marker.value)), ClosePeer(st))
    else if st.current.None? then st
    else st.(current := Some(ReadLine(st.current.value, line)))
  }

  function ParseLines(st: ParseState, lines: seq<string>): ParseState
    decreases |lines|
  {
    if lines == [] then st else ParseLines(ParseLine(st, lines[0]), lines[1..])
  }

  function DropCarriageReturn(s: string): string {
    if s != "" && s[|s| - 1] == '\r' then s[..|s| - 1] else s
  }

  /** A line scanner: no empty last line, no carriage returns at line ends. */
  function ScanLines(content: string): seq<string> {
    var lines := Split(content, '\n');
    var kept := if lines[|lines| - 1] == "" then lines[..|lines| - 1] else lines;
    seq(|kept|, i requires 0 <= i < |kept| => DropCarriageReturn(kept[i]))
  }

  /** The peers a configuration text describes. */
  function Parsed(content: string): seq<Peer> {
    ClosePeer(ParseLines(PARSE_START, ScanLines(content)))
  }

  method ParseContent(content: string) returns (peers: seq<Peer>)
    ensures peers == Parsed(content)
  {
    peers := [];
    var current: Option<Peer> := None;
    var lines := ScanLines(content);
    for i := 0 to |lines|
      invariant ParseLines(ParseState(current, peers), lines[i..]) == ParseLines(PARSE_START, lines)
    {
      var line := TrimSpace(lines[i]);
      var marker := MarkerName(line);
      if marker.Some? {
        if current.Some? {
          peers := peers + [current.value];
        }
        current := Some(NewPeer(marker.value));
        continue;
      }
      if current.None? {
        continue;
      }
      var p := current.value;
      if HasPrefix(line, PUBLIC_KEY) {
        p := p.(publicKey := TrimPrefix(line, PUBLIC_KEY));
      } else if HasPrefix(line, PRESHARED_KEY) {
        p := p.(preshared := TrimPrefix(line, PRESHARED_KEY));
      } else if HasPrefix(line, ALLOWED_IPS) {
        var allowed := TrimPrefix(line, ALLOWED_IPS);
        var ipv4, ipv6 := SplitAllowedIPs(allowed);
        p := p.(allowedIPs := allowed, ipv4 := ipv4, ipv6 := ipv6);
      }
      current := Some(p);
    }
    if current.Some? {
      peers := peers + [current.value];
    }
  }

  // ---- editing -------------------------------------------------------------

  function MarkerLine(name: string): string {
    "### Client " + name
  }

  /** The lines under the marker, the last one empty. */
  function BodyLines(p: Peer): seq<string> {
    ["[Peer]", PUBLIC_KEY + p.publicKey, PRESHARED_KEY + p.preshared, ALLOWED_IPS + p.allowedIPs, ""]
  }

  function PeerBlock(p: Peer): string {
    "\n" + Join([MarkerLine(p.name)] + BodyLines(p), '\n')
  }

  function Appended(content: string, p: Peer): string {
    content + PeerBlock(p)
  }

  /** The lines that stay when the blocks of `name` go: from a marker of that
      name up to and including the next blank line everything is dropped. */
  function KeptLines(name: string, lines: seq<string>, skip: bool): seq<string>
    decreases |lines|
  {
    if lines == [] then []
    else
      var line := TrimSpace(lines[0]);
      if MarksName(line, name) then KeptLines(name, lines[1..], true)
      else if skip then KeptLines(name, lines[1..], line != "")
      else [lines[0]] + KeptLines(name, lines[1..], false)
  }

  function Removed(content: string, name: string): string {
    OneNewline(Join(KeptLines(name, Split(content, '\n'), false), '\n'))
  }

  /** The configuration file on disk. */
  class ConfigFile {
    var text: string

    constructor (content: string)
      ensures text == content
    {
      text := content;
    }

    method AppendPeer(p: Peer)
      modifies this
      ensures text == Appended(old(text), p)
    {
      text := text + PeerBlock(p);
    }

    method RemovePeer(name: string)
      modifies this
      ensures text == Removed(old(text), name)
    {
      var lines := Split(text, '\n');
      var out: seq<string> := [];
      var skip := false;
      for i := 0 to |lines|
        invariant text == old(text)
        invariant out + KeptLines(name, lines[i..], skip) == KeptLines(name, lines, false)
      {
        var line := TrimSpace(lines[i]);
        if MarksName(line, name) {
          skip := true;
          continue;
        }
        if skip {
          if line == "" {
            skip := false;
          }
          continue;
        }
        out := out + [lines[i]];
      }
      assert out == KeptLines(name, lines, false);
      text := TrimNewlines(Join(out, '\n')) + "\n";
    }
  }
}
