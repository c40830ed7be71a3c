/** Junk packet parameters in client configurations (internal/wgconf/junk.go),
    and the client configuration itself. */
module Junk {
  import opened Common
  import opened Text

  datatype JunkParams = JunkParams(jc: nat, jmin: nat, jmax: nat)

  /** A random 64-bit number reduced to min..max. */
  function RandInt(min: nat, max: nat, random: nat): nat
    requires min <= max
  {
    min + random % (max - min + 1)
  }

  /** The three random draws are inputs. */
  method GenerateJunkParams(r0: nat, r1: nat, r2: nat) returns (junk: JunkParams)
    ensures 2 <= junk.jc <= 7 && 8 <= junk.jmin <= 48 && junk.jmin + 16 <= junk.jmax <= 128
    ensures junk.jc == 2 + r0 % 6 && junk.jmin == 8 + r1 % 41
    ensures var jmax := junk.jmin + 16 + r2 % 81; junk.jmax == if jmax > 128 then 128 else jmax
  {
    var jc := RandInt(2, 7, r0);
    var jmin := RandInt(8, 48, r1);
    var jmax := jmin + RandInt(16, 96, r2);
    if jmax > 128 {
      jmax := 128;
    }
    if jmax <= jmin {
      jmax := jmin + 8;
    }
    junk := JunkParams(jc, jmin, jmax);
  }

  /** The parameter lines without the newline after the last one. */
  function JunkBlock(j: JunkParams): string {
    "Jc = " + Itoa(j.jc) + "\n" + ("Jmin = " + Itoa(j.jmin) + "\n" + ("Jmax = " + Itoa(j.jmax)))
  }

  predicate IsJunkLine(line: string) {
    var trimmed := TrimSpace(line);
    HasPrefix(trimmed, "Jc") && '=' in trimmed
  }

  predicate HasJunkParams(config: string) {
    var lines := Split(config, '\n');
    exists i | 0 <= i < |lines| :: IsJunkLine(lines[i])
  }

  predicate IsInterfaceLine(line: string) {
    TrimSpace(line) == "[Interface]"
  }

  predicate IsPeerLine(line: string) {
    TrimSpace(line) == "[Peer]"
  }

  /** The injector's variables between two lines. */
  datatype ScanState = ScanState(out: seq<string>, inInterface: bool, inserted: bool)

  const SCAN_START := ScanState([], false, false)

  function ScanLine(st: ScanState, line: string, block: string): ScanState {
    var hit := IsPeerLine(line) && st.inInterface && !st.inserted;
    ScanState(st.out + (if hit then [block, "", line] else [line]),
              IsInterfaceLine(line) || (st.inInterface && !IsPeerLine(line)),
              st.inserted || hit)
  }

  function Scan(st: ScanState, lines: seq<string>, block: string): ScanState
    decreases |lines|
  {
    if lines == [] then st else Scan(ScanLine(st, lines[0], block), lines[1..], block)
  }

  datatype JunkError = NoInterfaceSection

  function Injected(config: string, junk: JunkParams): Result<string, JunkError> {
    var scan := Scan(SCAN_START, Split(config, '\n'), JunkBlock(junk));
    if scan.inserted then Ok(OneNewline(Join(scan.out, '\n'))) else Err(NoInterfaceSection)
  }

  method InsertBlock(lines: seq<string>, block: string) returns (out: seq<string>, inserted: bool)
    ensures out == Scan(SCAN_START, lines, block).out && inserted == Scan(SCAN_START, lines, block).inserted
  {
    out := [];
    var inInterface := false;
    inserted := false;
    for i := 0 to |lines|
      invariant Scan(ScanState(out, inInterface, inserted), lines[i..], block) == Scan(SCAN_START, lines, block)
    {
      ghost var next := ScanLine(ScanState(out, inInterface, inserted), lines[i], block);
      var trimmed := TrimSpace(lines[i]);
      if trimmed == "[Peer]" && inInterface && !inserted {
        out := out + [block];
        out := out + [""];
        inserted := true;
        inInterface := false;
      }
      out := out + [lines[i]];
      if trimmed == "[Interface]" {
        inInterface := true;
      }
      if trimmed == "[Peer]" {
        inInterface := false;
      }
      assert ScanState(out, inInterface, inserted) == next;
    }
  }

  method InjectJunkParams(config: string, junk: JunkParams) returns (result: Result<string, JunkError>)
    ensures result == Injected(config, junk)
  {
    var lines := Split(config, '\n');
    var out, inserted := InsertBlock(lines, JunkBlock(junk));
    if !inserted {
      return Err(NoInterfaceSection);
    }
    result := Ok(TrimNewlines(Join(out, '\n')) + "\n");
  }

  /** The random parameters are an input, used only when none are present. */
  function EnsureJunkParams(config: string, junk: JunkParams): Result<string, JunkError> {
    if HasJunkParams(config) then Ok(config) else Injected(config, junk)
  }

  // ---- where the block goes ------------------------------------------------

  ghost predicate AfterInterface(lines: seq<string>, j: int, inInterface: bool)
    requires j <= |lines|
  {
    inInterface || exists i :: 0 <= i < j && IsInterfaceLine(lines[i])
  }

  /** Line k is the first `[Peer]` line with an `[Interface]` line before it. */
  ghost predicate InsertsAt(lines: seq<string>, k: nat, inInterface: bool) {
    && k < |lines| && IsPeerLine(lines[k]) && AfterInterface(lines, k, inInterface)
    && forall j :: 0 <= j < k ==> !(IsPeerLine(lines[j]) && AfterInterface(lines, j, inInterface))
  }

  lemma {:induction false} ScanAfterInsertion(st: ScanState, lines: seq<string>, block: string)
    requires st.inserted
    ensures var end := Scan(st, lines, block); end.inserted && end.out == st.out + lines
    decreases |lines|
  {
    if lines != [] {
      ScanAfterInsertion(ScanLine(st, lines[0], block), lines[1..], block);
      assert [lines[0]] + lines[1..] == lines;
    }
  }

  lemma NextLine(lines: seq<string>, j: int, inInterface: bool)
    requires 0 < j <= |lines|
    ensures AfterInterface(lines, j, inInterface) <==>
            AfterInterface(lines[1..], j - 1, inInterface || IsInterfaceLine(lines[0]))
  {
    forall i | 0 < i < j ensures lines[1..][i - 1] == lines[i] {}
    if i :| 0 <= i < j - 1 && IsInterfaceLine(lines[1..][i]) {
      assert IsInterfaceLine(lines[i + 1]);
    }
    if i :| 0 < i < j && IsInterfaceLine(lines[i]) {
      assert IsInterfaceLine(lines[1..][i - 1]);
    }
  }

  lemma InsertsLater(st: ScanState, lines: seq<string>, block: string, k: nat)
    requires !st.inserted && 0 < k && InsertsAt(lines, k, st.inInterface)
    ensures var next := ScanLine(st, lines[0], block);
            !next.inserted && next.out == st.out + [lines[0]] && InsertsAt(lines[1..], k - 1, next.inInterface)
  {
    var first, rest := lines[0], lines[1..];
    var next := ScanLine(st, first, block);
    assert !(IsPeerLine(first) && AfterInterface(lines, 0, st.inInterface));
    forall j | 0 < j < |lines|
      ensures AfterInterface(lines, j, st.inInterface) <==> AfterInterface(rest, j - 1, next.inInterface)
    {
      NextLine(lines, j, st.inInterface);
    }
    forall j | 0 <= j < k - 1 ensures !(IsPeerLine(rest[j]) && AfterInterface(rest, j, next.inInterface)) {
      assert rest[j] == lines[j + 1];
    }
  }

  lemma InsertedLater(out: seq<string>, lines: seq<string>, block: seq<string>, k: nat)
    requires 0 < k < |lines|
    ensures out + [lines[0]] + (lines[1..][..k - 1] + block + lines[1..][k - 1..]) ==
            out + (lines[..k] + block + lines[k..])
  {
  }

  lemma {:induction false} ScanInserts(st: ScanState, lines: seq<string>, block: string, k: nat)
    requires !st.inserted && InsertsAt(lines, k, st.inInterface)
    ensures var end := Scan(st, lines, block);
            end.inserted && end.out == st.out + (lines[..k] + [block, ""] + lines[k..])
    decreases |lines|
  {
    var first, rest := lines[0], lines[1..];
    var next := ScanLine(st, first, block);
    if k == 0 {
      ScanAfterInsertion(next, rest, block);
      assert st.out + [block, "", first] + rest == st.out + (lines[..0] + [block, ""] + lines[0..]);
    } else {
      InsertsLater(st, lines, block, k);
      ScanInserts(next, rest, block, k - 1);
      InsertedLater(st.out, lines, [block, ""], k);
    }
  }

  lemma {:induction false} ScanFindsNothing(st: ScanState, lines: seq<string>, block: string)
    requires !st.inserted
    requires forall j :: 0 <= j < |lines| ==> !(IsPeerLine(lines[j]) && AfterInterface(lines, j, st.inInterface))
    ensures !Scan(st, lines, block).inserted
    decreases |lines|
  {
    if lines != [] {
      var first, rest := lines[0], lines[1..];
      assert !(IsPeerLine(first) && AfterInterface(lines, 0, st.inInterface));
      var next := ScanLine(st, first, block);
      forall j | 0 <= j < |rest| ensures !(IsPeerLine(rest[j]) && AfterInterface(rest, j, next.inInterface)) {
        NextLine(lines, j + 1, st.inInterface);
        assert rest[j] == lines[j + 1];
      }
      ScanFindsNothing(next, rest, block);
    }
  }

  ghost predicate PeerAfterInterface(lines: seq<string>) {
    exists i, j :: 0 <= i < j < |lines| && IsInterfaceLine(lines[i]) && IsPeerLine(lines[j])
  }

  lemma {:induction false} FirstInsertion(lines: seq<string>, upto: nat) returns (k: nat)
    requires upto < |lines| && IsPeerLine(lines[upto]) && AfterInterface(lines, upto, false)
    ensures InsertsAt(lines, k, false)
  {
    if j :| 0 <= j < upto && IsPeerLine(lines[j]) && AfterInterface(lines, j, false) {
      k := FirstInsertion(lines, j);
    } else {
      k := upto;
    }
  }

  /** Injection succeeds exactly when some `[Interface]` line precedes some
      `[Peer]` line. */
  lemma InjectionSucceedsIff(config: string, junk: JunkParams)
    ensures Injected(config, junk).Ok? <==> PeerAfterInterface(Split(config, '\n'))
  {
    var lines := Split(config, '\n');
    if PeerAfterInterface(lines) {
      var i, j :| 0 <= i < j < |lines| && IsInterfaceLine(lines[i]) && IsPeerLine(lines[j]);
      var k := FirstInsertion(lines, j);
      ScanInserts(SCAN_START, lines, JunkBlock(junk), k);
    } else {
      ScanFindsNothing(SCAN_START, lines, JunkBlock(junk));
    }
  }

  /** The result is the original with the block and an empty line before the
      first `[Peer]` line that follows an `[Interface]` line, up to newlines at
      the end. */
  lemma InjectionInserts(config: string, junk: JunkParams, k: nat)
    requires InsertsAt(Split(config, '\n'), k, false)
    ensures var lines := Split(config, '\n');
            Injected(config, junk) == Ok(OneNewline(Join(lines[..k] + [JunkBlock(junk), ""] + lines[k..], '\n')))
  {
    var lines := Split(config, '\n');
    ScanInserts(SCAN_START, lines, JunkBlock(junk), k);
    assert [] + (lines[..k] + [JunkBlock(junk), ""] + lines[k..]) == lines[..k] + [JunkBlock(junk), ""] + lines[k..];
  }

  // ---- idempotence ---------------------------------------------------------

  lemma HasJunkConcat(a: string, b: string)
    ensures HasJunkParams(a + "\n" + b) <==> HasJunkParams(a) || HasJunkParams(b)
  {
    var x, y := Split(a, '\n'), Split(b, '\n');
    SplitConcat(a, '\n', b);
    assert a + "\n" + b == a + ['\n'] + b;
    forall i | 0 <= i < |x| ensures (x + y)[i] == x[i] {}
    forall i | 0 <= i < |y| ensures (x + y)[|x| + i] == y[i] {}
  }

  lemma JunkLineIsJunk(n: nat)
    ensures HasJunkParams("Jc = " + Itoa(n))
  {
    AtoiOfItoa(n);
    var line := "Jc = " + Itoa(n);
    assert line[|line| - 1] == Itoa(n)[|Itoa(n)| - 1];
    TrimSpaceOfTrimmed(line);
    assert line[3] == '=';
    assert '\n' !in line;
    SplitWithoutSep(line, '\n');
    assert IsJunkLine([line][0]);
  }

  lemma BlockHasJunk(junk: JunkParams)
    ensures HasJunkParams(JunkBlock(junk))
  {
    JunkLineIsJunk(junk.jc);
    HasJunkConcat("Jc = " + Itoa(junk.jc), "Jmin = " + Itoa(junk.jmin) + "\n" + ("Jmax = " + Itoa(junk.jmax)));
  }

  lemma HasJunkOneNewline(s: string)
    ensures HasJunkParams(OneNewline(s)) <==> HasJunkParams(s)
  {
    var lines := Split(TrimNewlines(s), '\n');
    var count := SplitTrimmed(s);
    SplitOneNewline(s);
    assert !IsJunkLine("");
    forall i | 0 <= i < |lines|
      ensures (lines + EmptyLines(count))[i] == lines[i] == (lines + [""])[i]
    {
    }
  }

  lemma JoinedBlockHasJunk(before: seq<string>, block: string, after: seq<string>)
    requires before != [] && after != [] && HasJunkParams(block)
    ensures HasJunkParams(Join(before + ([block] + after), '\n'))
  {
    JoinConcat([block], after, '\n');
    HasJunkConcat(block, Join(after, '\n'));
    var middle := Join([block] + after, '\n');
    assert middle == block + "\n" + Join(after, '\n');
    JoinConcat(before, [block] + after, '\n');
    HasJunkConcat(Join(before, '\n'), middle);
    assert Join(before + ([block] + after), '\n') == Join(before, '\n') + "\n" + middle;
  }

  lemma InsertedBlockHasJunk(lines: seq<string>, k: nat, junk: JunkParams)
    requires 0 < k < |lines|
    ensures HasJunkParams(OneNewline(Join(lines[..k] + [JunkBlock(junk), ""] + lines[k..], '\n')))
  {
    var before, block, after := lines[..k], JunkBlock(junk), [""] + lines[k..];
    assert before + [block, ""] + lines[k..] == before + ([block] + after);
    BlockHasJunk(junk);
    JoinedBlockHasJunk(before, block, after);
    HasJunkOneNewline(Join(before + ([block] + after), '\n'));
  }

  lemma InjectionPoint(config: string, junk: JunkParams) returns (k: nat)
    requires Injected(config, junk).Ok?
    ensures InsertsAt(Split(config, '\n'), k, false) && k > 0
  {
    var lines := Split(config, '\n');
    InjectionSucceedsIff(config, junk);
    var i, j :| 0 <= i < j < |lines| && IsInterfaceLine(lines[i]) && IsPeerLine(lines[j]);
    k := FirstInsertion(lines, j);
  }

  /** Every success leaves parameters in the text. */
  lemma InjectionAddsJunk(config: string, junk: JunkParams)
    requires Injected(config, junk).Ok?
    ensures HasJunkParams(Injected(config, junk).value)
  {
    var k := InjectionPoint(config, junk);
    InjectionInserts(config, junk, k);
    InsertedBlockHasJunk(Split(config, '\n'), k, junk);
  }

  /** Once ensured, ensuring again with any other parameters changes nothing. */
  lemma EnsureIsIdempotent(config: string, junk: JunkParams, other: JunkParams)
    requires EnsureJunkParams(config, junk).Ok?
    ensures var once := EnsureJunkParams(config, junk).value;
            HasJunkParams(once) && EnsureJunkParams(once, other) == Ok(once)
  {
    if !HasJunkParams(config) {
      InjectionAddsJunk(config, junk);
    }
  }

  // ---- what the caller's text becomes ----------------------------------------

  /** A parameter line begins with `Jc` and has an equals sign somewhere. */
  lemma JunkLineIs(line: string)
    ensures var t := TrimSpace(line);
            IsJunkLine(line) <==> |t| >= 2 && t[0] == 'J' && t[1] == 'c' && '=' in t
  {
  }

  lemma JunkBlockLines(junk: JunkParams)
    ensures Split(JunkBlock(junk), '\n') ==
            ["Jc = " + Itoa(junk.jc), "Jmin = " + Itoa(junk.jmin), "Jmax = " + Itoa(junk.jmax)]
  {
    var jc, jmin, jmax := "Jc = " + Itoa(junk.jc), "Jmin = " + Itoa(junk.jmin), "Jmax = " + Itoa(junk.jmax);
    AtoiOfItoa(junk.jc);
    AtoiOfItoa(junk.jmin);
    AtoiOfItoa(junk.jmax);
    SplitWithoutSep(jc, '\n');
    SplitWithoutSep(jmin, '\n');
    SplitWithoutSep(jmax, '\n');
    SplitConcat(jmin, '\n', jmax);
    SplitConcat(jc, '\n', jmin + "\n" + jmax);
    assert jmin + "\n" + jmax == jmin + ['\n'] + jmax;
    assert JunkBlock(junk) == jc + ['\n'] + (jmin + "\n" + jmax);
  }

  lemma InsertedLines(lines: seq<string>, k: nat, junk: JunkParams)
    requires 0 < k < |lines| && Separated(lines, '\n')
    ensures Split(Join(lines[..k] + [JunkBlock(junk), ""] + lines[k..], '\n'), '\n') ==
            lines[..k] + Split(JunkBlock(junk), '\n') + ([""] + lines[k..])
  {
    var before, block, after := lines[..k], JunkBlock(junk), [""] + lines[k..];
    assert before + [block, ""] + lines[k..] == before + ([block] + after);
    JoinConcat([block], after, '\n');
    JoinConcat(before, [block] + after, '\n');
    SplitJoin(before, '\n');
    SplitJoin(after, '\n');
    SplitConcat(block, '\n', Join(after, '\n'));
    SplitConcat(Join(before, '\n'), '\n', block + ['\n'] + Join(after, '\n'));
  }

  lemma OneNewlineLines(s: string) returns (count: nat)
    ensures Split(OneNewline(s), '\n') + EmptyLines(count) == Split(s, '\n') + [""]
  {
    count := SplitTrimmed(s);
    SplitOneNewline(s);
    assert [""] + EmptyLines(count) == EmptyLines(count) + [""];
  }

  /** A text that has parameters is returned as it is. */
  lemma EnsureKeeps(config: string, junk: JunkParams)
    requires HasJunkParams(config)
    ensures EnsureJunkParams(config, junk) == Ok(config)
  {
  }

  /** The `k`-th line is `[Peer]`, after an `[Interface]` line, and no earlier line is
      one. */
  ghost predicate FirstPeerLine(lines: seq<string>, k: nat) {
    && k < |lines| && TrimSpace(lines[k]) == "[Peer]"
    && (exists i :: 0 <= i < k && TrimSpace(lines[i]) == "[Interface]")
    && forall i, j :: 0 <= i < j < k ==> !(TrimSpace(lines[i]) == "[Interface]" && TrimSpace(lines[j]) == "[Peer]")
  }

  lemma InsertionPointIsFirst(config: string, junk: JunkParams) returns (k: nat)
    requires Injected(config, junk).Ok?
    ensures 0 < k && InsertsAt(Split(config, '\n'), k, false) && FirstPeerLine(Split(config, '\n'), k)
  {
    k := InjectionPoint(config, junk);
    var lines := Split(config, '\n');
    forall i, j | 0 <= i < j < k && TrimSpace(lines[i]) == "[Interface]" ensures TrimSpace(lines[j]) != "[Peer]" {
      assert IsInterfaceLine(lines[i]) && !(IsPeerLine(lines[j]) && AfterInterface(lines, j, false));
    }
  }

  /** A text without parameters keeps all its lines, in order: the result has them
      with the three parameters and an empty line before the first `[Peer]` line after
      an `[Interface]` line, up to empty lines at the end. It fails exactly when there
      is no such line. */
  lemma EnsureInserts(config: string, junk: JunkParams) returns (k: nat, count: nat)
    requires !HasJunkParams(config) && EnsureJunkParams(config, junk).Ok?
    ensures FirstPeerLine(Split(config, '\n'), k)
    ensures var lines := Split(config, '\n');
            Split(EnsureJunkParams(config, junk).value, '\n') + EmptyLines(count) ==
            lines[..k] +
            ["Jc = " + Itoa(junk.jc), "Jmin = " + Itoa(junk.jmin), "Jmax = " + Itoa(junk.jmax)] + ([""] + lines[k..]) +
            [""]
  {
    var lines := Split(config, '\n');
    k := InsertionPointIsFirst(config, junk);
    InjectionInserts(config, junk, k);
    JoinSplit(config, '\n');
    InsertedLines(lines, k, junk);
    JunkBlockLines(junk);
    count := OneNewlineLines(Join(lines[..k] + [JunkBlock(junk), ""] + lines[k..], '\n'));
  }

  lemma EnsureFailsIff(config: string, junk: JunkParams)
    ensures EnsureJunkParams(config, junk).Err? <==>
            var lines := Split(config, '\n');
            !HasJunkParams(config) &&
            !exists i, j :: 0 <= i < j < |lines| && TrimSpace(lines[i]) == "[Interface]"
                            && TrimSpace(lines[j]) == "[Peer]"
  {
    InjectionSucceedsIff(config, junk);
    assert forall line :: IsInterfaceLine(line) <==> TrimSpace(line) == "[Interface]";
    assert forall line :: IsPeerLine(line) <==> TrimSpace(line) == "[Peer]";
  }

  // ---- the client configuration --------------------------------------------

  /** The line of a setting. */
  function Setting(key: string, value: string): string {
    key + " = " + value
  }

  function BuildClientConfig(privKey: string, ipv4: string, ipv6: string, dns1: string, dns2: string,
                             serverPubKey: string, psk: string, endpoint: string, allowedIPs: string,
                             junk: JunkParams): string {
    "[Interface]" + "\n"
    + Setting("PrivateKey", privKey) + "\n"
    + Setting("Address", ipv4 + "/32," + ipv6 + "/128") + "\n"
    + Setting("DNS", dns1 + "," + dns2) + "\n"
    + JunkBlock(junk) + "\n"
    + "" + "\n"
    + "[Peer]" + "\n"
    + Setting("PublicKey", serverPubKey) + "\n"
    + Setting("PresharedKey", psk) + "\n"
    + Setting("Endpoint", endpoint) + "\n"
    + Setting("AllowedIPs", allowedIPs) + "\n"
    + ""
  }

  lemma MoreJunk(text: string, line: string)
    requires HasJunkParams(text)
    ensures HasJunkParams(text + "\n" + line)
  {
    HasJunkConcat(text, line);
  }

  /** A built configuration always carries its parameters. */
  lemma BuiltConfigHasJunk(privKey: string, ipv4: string, ipv6: string, dns1: string, dns2: string,
                           serverPubKey: string, psk: string, endpoint: string, allowedIPs: string, junk: JunkParams)
    ensures HasJunkParams(BuildClientConfig(privKey, ipv4, ipv6, dns1, dns2, serverPubKey, psk, endpoint,
                                            allowedIPs, junk))
  {
    var head := "[Interface]" + "\n" + Setting("PrivateKey", privKey) + "\n"
                + Setting("Address", ipv4 + "/32," + ipv6 + "/128") + "\n" + Setting("DNS", dns1 + "," + dns2);
    BlockHasJunk(junk);
    HasJunkConcat(head, JunkBlock(junk));
    var t1 := head + "\n" + JunkBlock(junk);
    var t2 := t1 + "\n" + "";
    var t3 := t2 + "\n" + "[Peer]";
    var t4 := t3 + "\n" + Setting("PublicKey", serverPubKey);
    var t5 := t4 + "\n" + Setting("PresharedKey", psk);
    var t6 := t5 + "\n" + Setting("Endpoint", endpoint);
    var t7 := t6 + "\n" + Setting("AllowedIPs", allowedIPs);
    MoreJunk(t1, "");
    MoreJunk(t2, "[Peer]");
    MoreJunk(t3, Setting("PublicKey", serverPubKey));
    MoreJunk(t4, Setting("PresharedKey", psk));
    MoreJunk(t5, Setting("Endpoint", endpoint));
    MoreJunk(t6, Setting("AllowedIPs", allowedIPs));
    MoreJunk(t7, "");
  }

  lemma OneMoreLine(text: string, lines: seq<string>, line: string)
    requires Split(text, '\n') == lines && '\n' !in line
    ensures Split(text + "\n" + line, '\n') == lines + [line]
  {
    SplitConcat(text, '\n', line);
    SplitWithoutSep(line, '\n');
  }

  lemma MoreLines(text: string, lines: seq<string>, block: string)
    requires Split(text, '\n') == lines
    ensures Split(text + "\n" + block, '\n') == lines + Split(block, '\n')
  {
    SplitConcat(text, '\n', block);
  }

  lemma FourMoreLines(head: string, lines: seq<string>, a: string, b: string, c: string, d: string)
    requires Split(head, '\n') == lines && '\n' !in a && '\n' !in b && '\n' !in c && '\n' !in d
    ensures Split(head + "\n" + a + "\n" + b + "\n" + c + "\n" + d, '\n') == lines + [a] + [b] + [c] + [d]
  {
    var t1 := head + "\n" + a;
    var t2 := t1 + "\n" + b;
    var t3 := t2 + "\n" + c;
    OneMoreLine(head, lines, a);
    OneMoreLine(t1, lines + [a], b);
    OneMoreLine(t2, lines + [a] + [b], c);
    OneMoreLine(t3, lines + [a] + [b] + [c], d);
  }

  lemma ThreeMoreLines(head: string, lines: seq<string>, a: string, b: string, c: string)
    requires Split(head, '\n') == lines && '\n' !in a && '\n' !in b && '\n' !in c
    ensures Split(head + "\n" + a + "\n" + b + "\n" + c, '\n') == lines + [a] + [b] + [c]
  {
    var t1 := head + "\n" + a;
    var t2 := t1 + "\n" + b;
    OneMoreLine(head, lines, a);
    OneMoreLine(t1, lines + [a], b);
    OneMoreLine(t2, lines + [a] + [b], c);
  }

  lemma SevenMoreLines(head: string, lines: seq<string>, a: string, b: string, c: string, d: string, e: string,
                       f: string, g: string)
    requires Split(head, '\n') == lines && '\n' !in a && '\n' !in b && '\n' !in c && '\n' !in d
    requires '\n' !in e && '\n' !in f && '\n' !in g
    ensures Split(head + "\n" + a + "\n" + b + "\n" + c + "\n" + d + "\n" + e + "\n" + f + "\n" + g, '\n') ==
            lines + [a] + [b] + [c] + [d] + [e] + [f] + [g]
  {
    FourMoreLines(head, lines, a, b, c, d);
    ThreeMoreLines(head + "\n" + a + "\n" + b + "\n" + c + "\n" + d, lines + [a] + [b] + [c] + [d], e, f, g);
  }

  lemma UpperLines(first: string, priv: string, address: string, dns: string, block: string, more: seq<string>)
    requires '\n' !in first && '\n' !in priv && '\n' !in address && '\n' !in dns
    requires Split(block, '\n') == more
    ensures Split(first + "\n" + priv + "\n" + address + "\n" + dns + "\n" + block, '\n') ==
            [first] + [priv] + [address] + [dns] + more
  {
    SplitWithoutSep(first, '\n');
    ThreeMoreLines(first, [first], priv, address, dns);
    MoreLines(first + "\n" + priv + "\n" + address + "\n" + dns, [first] + [priv] + [address] + [dns], block);
  }

  /** The lines of a text put together from lines and one block. */
  lemma TextLines(first: string, priv: string, address: string, dns: string, block: string, more: seq<string>,
                  blank: string, second: string, key: string, psk: string, endpoint: string, allowed: string,
                  last: string)
    requires '\n' !in first && '\n' !in priv && '\n' !in address && '\n' !in dns
    requires Split(block, '\n') == more
    requires '\n' !in blank && '\n' !in second && '\n' !in key && '\n' !in psk
    requires '\n' !in endpoint && '\n' !in allowed && '\n' !in last
    ensures Split(first + "\n" + priv + "\n" + address + "\n" + dns + "\n" + block
                  + "\n" + blank + "\n" + second + "\n" + key + "\n" + psk + "\n" + endpoint + "\n" + allowed
                  + "\n" + last, '\n') ==
            [first] + [priv] + [address] + [dns] + more
            + [blank] + [second] + [key] + [psk] + [endpoint] + [allowed] + [last]
  {
    UpperLines(first, priv, address, dns, block, more);
    SevenMoreLines(first + "\n" + priv + "\n" + address + "\n" + dns + "\n" + block,
                   [first] + [priv] + [address] + [dns] + more,
                   blank, second, key, psk, endpoint, allowed, last);
  }

  /** The lines of a built configuration, section by section, for one-line values. */
  lemma BuiltLines(privKey: string, ipv4: string, ipv6: string, dns1: string, dns2: string, serverPubKey: string,
                   psk: string, endpoint: string, allowedIPs: string, junk: JunkParams)
    requires forall v :: v in {privKey, ipv4, ipv6, dns1, dns2, serverPubKey, psk, endpoint, allowedIPs} ==> '\n' !in v
    ensures Split(BuildClientConfig(privKey, ipv4, ipv6, dns1, dns2, serverPubKey, psk, endpoint, allowedIPs, junk),
                  '\n') ==
            ["[Interface]"] + ["PrivateKey" + " = " + privKey]
            + ["Address" + " = " + (ipv4 + "/32," + ipv6 + "/128")] + ["DNS" + " = " + (dns1 + "," + dns2)]
            + ["Jc = " + Itoa(junk.jc), "Jmin = " + Itoa(junk.jmin), "Jmax = " + Itoa(junk.jmax)]
            + [""] + ["[Peer]"] + ["PublicKey" + " = " + serverPubKey] + ["PresharedKey" + " = " + psk]
            + ["Endpoint" + " = " + endpoint] + ["AllowedIPs" + " = " + allowedIPs] + [""]
  {
    JunkBlockLines(junk);
    SettingsAreLines(privKey, ipv4 + "/32," + ipv6 + "/128", dns1 + "," + dns2);
    SettingsArePeerLines(serverPubKey, psk, endpoint, allowedIPs);
    TextLines("[Interface]", "PrivateKey" + " = " + privKey, "Address" + " = " + (ipv4 + "/32," + ipv6 + "/128"),
              "DNS" + " = " + (dns1 + "," + dns2), JunkBlock(junk),
              ["Jc = " + Itoa(junk.jc), "Jmin = " + Itoa(junk.jmin), "Jmax = " + Itoa(junk.jmax)],
              "", "[Peer]", "PublicKey" + " = " + serverPubKey, "PresharedKey" + " = " + psk,
              "Endpoint" + " = " + endpoint, "AllowedIPs" + " = " + allowedIPs, "");
  }

  lemma SettingsAreLines(privKey: string, address: string, dns: string)
    requires '\n' !in privKey && '\n' !in address && '\n' !in dns
    ensures '\n' !in "PrivateKey" + " = " + privKey && '\n' !in "Address" + " = " + address
    ensures '\n' !in "DNS" + " = " + dns
  {
  }

  lemma SettingsArePeerLines(serverPubKey: string, psk: string, endpoint: string, allowedIPs: string)
    requires '\n' !in serverPubKey && '\n' !in psk && '\n' !in endpoint && '\n' !in allowedIPs
    ensures '\n' !in "PublicKey" + " = " + serverPubKey && '\n' !in "PresharedKey" + " = " + psk
    ensures '\n' !in "Endpoint" + " = " + endpoint && '\n' !in "AllowedIPs" + " = " + allowedIPs
  {
  }
}
