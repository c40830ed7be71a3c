/** Address allocation in the server's subnet (internal/wgconf/wgconf.go,
    internal/peer/service.go). */
module FreeIP {
  import opened Common
  import opened Text
  import opened ConfRoundTrip

  /** Index of the last occurrence, or -1. */
  function LastIndex(s: string, c: char): (k: int)
    ensures -1 <= k < |s|
    ensures k >= 0 ==> s[k] == c
    ensures k == -1 <==> c !in s
  {
    if s == "" then -1
    else if s[|s| - 1] == c then |s| - 1
    else LastIndex(s[..|s| - 1], c)
  }

  lemma {:induction false} LastIndexIsLast(s: string, c: char)
    ensures forall j :: LastIndex(s, c) < j < |s| ==> s[j] != c
  {
    if s != "" && s[|s| - 1] != c {
      var shorter := s[..|s| - 1];
      LastIndexIsLast(shorter, c);
      assert forall j :: 0 <= j < |shorter| ==> shorter[j] == s[j];
    }
  }

  /** The server's address without its last octet. */
  function SubnetBase(serverIPv4: string): string
    requires '.' in serverIPv4
  {
    serverIPv4[..LastIndex(serverIPv4, '.')]
  }

  function Candidate(serverIPv4: string, octet: nat): string
    requires '.' in serverIPv4
  {
    SubnetBase(serverIPv4) + "." + Itoa(octet)
  }

  const FIRST_OCTET := 2
  const LAST_OCTET := 254

  function FreeOctetFrom(serverIPv4: string, used: seq<string>, octet: nat): Option<nat>
    requires '.' in serverIPv4
    decreases LAST_OCTET + 1 - octet
  {
    if octet > LAST_OCTET then None
    else if Candidate(serverIPv4, octet) !in used then Some(octet)
    else FreeOctetFrom(serverIPv4, used, octet + 1)
  }

  function FreeOctet(serverIPv4: string, used: seq<string>): Option<nat>
    requires '.' in serverIPv4
  {
    FreeOctetFrom(serverIPv4, used, FIRST_OCTET)
  }

  method FindFreeIP(serverIPv4: string, used: seq<string>) returns (octet: Option<nat>)
    requires '.' in serverIPv4
    ensures octet == FreeOctet(serverIPv4, used)
    ensures octet.Some? ==>
              && FIRST_OCTET <= octet.value <= LAST_OCTET
              && Candidate(serverIPv4, octet.value) !in used
              && forall i :: FIRST_OCTET <= i < octet.value ==> Candidate(serverIPv4, i) in used
    ensures octet.None? <==> forall i :: FIRST_OCTET <= i <= LAST_OCTET ==> Candidate(serverIPv4, i) in used
  {
    var usedSet: set<string> := {};
    for i := 0 to |used|
      invariant forall s :: s in usedSet <==> s in used[..i]
    {
      usedSet := usedSet + {used[i]};
    }
    for i := FIRST_OCTET to LAST_OCTET + 1
      invariant forall k :: FIRST_OCTET <= k < i ==> Candidate(serverIPv4, k) in used
      invariant FreeOctet(serverIPv4, used) == FreeOctetFrom(serverIPv4, used, i)
    {
      var candidate := Candidate(serverIPv4, i);
      if candidate !in usedSet {
        return Some(i);
      }
    }
    octet := None;
  }

  /** The allocator returns the least free octet, or none if all are taken. */
  lemma {:induction false} FreeOctetIsLeast(serverIPv4: string, used: seq<string>, from: nat)
    requires '.' in serverIPv4
    ensures match FreeOctetFrom(serverIPv4, used, from)
            case Some(octet) =>
              && from <= octet <= LAST_OCTET && Candidate(serverIPv4, octet) !in used
              && forall i :: from <= i < octet ==> Candidate(serverIPv4, i) in used
            case None => forall i :: from <= i <= LAST_OCTET ==> Candidate(serverIPv4, i) in used
    decreases LAST_OCTET + 1 - from
  {
    if from <= LAST_OCTET && Candidate(serverIPv4, from) in used {
      FreeOctetIsLeast(serverIPv4, used, from + 1);
    }
  }

  /** A server `base.last` has the candidates `base.i`. */
  lemma CandidateIs(base: string, last: string, octet: nat)
    requires '.' !in last
    ensures '.' in base + "." + last && Candidate(base + "." + last, octet) == base + "." + Itoa(octet)
  {
    var server := base + "." + last;
    var k := LastIndex(server, '.');
    assert server[|base|] == '.';
    assert forall j :: |base| < j < |server| ==> server[j] == last[j - |base| - 1];
    LastIndexIsLast(server, '.');
    assert server[..|base|] == base;
  }

  /** The octet given out for a server `base.last` is the least i from 2 to 254 whose
      address `base.i` is not used; there is none exactly when all are used. */
  lemma AllocatedIs(base: string, last: string, used: seq<string>)
    requires '.' !in last
    ensures var server := base + "." + last;
            '.' in server &&
            match FreeOctet(server, used)
            case Some(octet) =>
              && 2 <= octet <= 254 && base + "." + Itoa(octet) !in used
              && forall i :: 2 <= i < octet ==> base + "." + Itoa(i) in used
            case None => forall i :: 2 <= i <= 254 ==> base + "." + Itoa(i) in used
  {
    var server := base + "." + last;
    CandidateIs(base, last, 0);
    FreeOctetIsLeast(server, used, FIRST_OCTET);
    forall i: nat ensures Candidate(server, i) == base + "." + Itoa(i) {
      CandidateIs(base, last, i);
    }
  }

  // ---- counting ------------------------------------------------------------

  lemma CandidateInjective(serverIPv4: string, a: nat, b: nat)
    requires '.' in serverIPv4 && Candidate(serverIPv4, a) == Candidate(serverIPv4, b)
    ensures a == b
  {
    var prefix := SubnetBase(serverIPv4) + ".";
    assert Candidate(serverIPv4, a)[|prefix|..] == Itoa(a);
    assert Candidate(serverIPv4, b)[|prefix|..] == Itoa(b);
    ItoaInjective(a, b);
  }

  function Candidates(serverIPv4: string, count: nat): set<string>
    requires '.' in serverIPv4
  {
    set i | FIRST_OCTET <= i < FIRST_OCTET + count :: Candidate(serverIPv4, i)
  }

  lemma {:induction false} CandidatesAreDistinct(serverIPv4: string, count: nat)
    requires '.' in serverIPv4
    ensures |Candidates(serverIPv4, count)| == count
  {
    if count > 0 {
      var last := FIRST_OCTET + count - 1;
      CandidatesAreDistinct(serverIPv4, count - 1);
      if Candidate(serverIPv4, last) in Candidates(serverIPv4, count - 1) {
        var i :| FIRST_OCTET <= i < last && Candidate(serverIPv4, i) == Candidate(serverIPv4, last);
        CandidateInjective(serverIPv4, i, last);
      }
      assert Candidates(serverIPv4, count) ==
             Candidates(serverIPv4, count - 1) + {Candidate(serverIPv4, last)};
    }
  }

  lemma {:induction false} SetNotLargerThanSeq(used: seq<string>)
    ensures |set s | s in used| <= |used|
    decreases |used|
  {
    if used != [] {
      SetNotLargerThanSeq(used[1..]);
      assert (set s | s in used) == (set s | s in used[1..]) + {used[0]};
    }
  }

  lemma SubsetNotLarger(a: set<string>, b: set<string>)
    requires a <= b
    ensures |a| <= |b|
  {
    assert b == a + (b - a);
  }

  /** Fewer than 253 used addresses never exhaust the subnet. */
  lemma NeverFullBelow253(serverIPv4: string, used: seq<string>)
    requires '.' in serverIPv4 && |used| < 253
    ensures FreeOctet(serverIPv4, used).Some?
  {
    if FreeOctet(serverIPv4, used).None? {
      FreeOctetIsLeast(serverIPv4, used, FIRST_OCTET);
      CandidatesAreDistinct(serverIPv4, 253);
      var taken := set s | s in used;
      assert Candidates(serverIPv4, 253) <= taken;
      SubsetNotLarger(Candidates(serverIPv4, 253), taken);
      SetNotLargerThanSeq(used);
    }
  }

  // ---- the addresses a new peer gets ---------------------------------------

  /** Where `::` first occurs, or the length of the string. */
  function DoubleColon(s: string): (k: nat)
    ensures k <= |s|
  {
    if HasPrefix(s, "::") || s == "" then 0 else 1 + DoubleColon(s[1..])
  }

  lemma {:induction false} DoubleColonIsFirst(s: string)
    ensures var k := DoubleColon(s);
            && (k < |s| ==> HasPrefix(s[k..], "::"))
            && forall j :: 0 <= j < k ==> !HasPrefix(s[j..], "::")
  {
    assert s[0..] == s;
    if !HasPrefix(s, "::") && s != "" {
      DoubleColonIsFirst(s[1..]);
      forall j | 0 < j <= |s| ensures s[j..] == s[1..][j - 1..] {}
    }
  }

  function SplitIPv6Base(s: string): string {
    var base := s[..DoubleColon(s)];
    if base != "" then base else s
  }

  function ClientIPv6(serverIPv6: string, octet: nat): string {
    SplitIPv6Base(serverIPv6) + "::" + Itoa(octet)
  }

  function AllowedIPsFor(ipv4: string, ipv6: string): string {
    ipv4 + "/32," + ipv6 + "/128"
  }

  /** The client's address under a server `base::rest` is `base::i`. */
  lemma ClientIPv6Is(base: string, rest: string, octet: nat)
    requires base != "" && base[|base| - 1] != ':'
    requires forall j :: 0 <= j < |base| - 1 ==> !(base[j] == ':' && base[j + 1] == ':')
    ensures ClientIPv6(base + "::" + rest, octet) == base + "::" + Itoa(octet)
  {
    var server := base + "::" + rest;
    DoubleColonIsFirst(server);
    assert HasPrefix(server[|base|..], "::");
    forall j | 0 <= j < |base| ensures !HasPrefix(server[j..], "::") {
      assert server[j..][0] == base[j] && server[j..][1] == server[j + 1];
      assert server[j + 1] == if j + 1 < |base| then base[j + 1] else ':';
    }
    assert server[..|base|] == base;
  }

  /** Without a `::` the whole server address is the base. */
  lemma ClientIPv6WithoutBase(serverIPv6: string, octet: nat)
    requires forall j :: 0 <= j < |serverIPv6| - 1 ==> !(serverIPv6[j] == ':' && serverIPv6[j + 1] == ':')
    ensures ClientIPv6(serverIPv6, octet) == serverIPv6 + "::" + Itoa(octet)
  {
    DoubleColonIsFirst(serverIPv6);
    forall j | 0 <= j < |serverIPv6| ensures !HasPrefix(serverIPv6[j..], "::") {
      assert |serverIPv6[j..]| == |serverIPv6| - j && serverIPv6[j..][0] == serverIPv6[j];
      assert j + 1 < |serverIPv6| ==> serverIPv6[j..][1] == serverIPv6[j + 1];
    }
    assert serverIPv6[..|serverIPv6|] == serverIPv6;
  }

  lemma ItoaIsWord(n: nat)
    ensures Word(Itoa(n)) && '.' !in Itoa(n)
  {
    AtoiOfItoa(n);
  }

  /** Printing and reading back the addresses of a new peer is the identity. */
  lemma NewAddressesReadBack(serverIPv4: string, serverIPv6: string, octet: nat)
    requires Word(serverIPv4) && '.' in serverIPv4
    requires (serverIPv6 == "" || Word(serverIPv6)) && '.' !in serverIPv6
    ensures var ipv4, ipv6 := Candidate(serverIPv4, octet), ClientIPv6(serverIPv6, octet);
            && WgConf.AddressesOf(AllowedIPsFor(ipv4, ipv6)) == (ipv4, ipv6)
            && EndsClean(AllowedIPsFor(ipv4, ipv6))
  {
    ItoaIsWord(octet);
    var ipv4, ipv6 := Candidate(serverIPv4, octet), ClientIPv6(serverIPv6, octet);
    var base6 := SplitIPv6Base(serverIPv6);
    assert Word(ipv4) && '.' in ipv4 by {
      assert ipv4[|ipv4| - 1] == Itoa(octet)[|Itoa(octet)| - 1];
      assert ipv4[|SubnetBase(serverIPv4)|] == '.';
    }
    assert Word(ipv6) && ':' in ipv6 && '.' !in ipv6 by {
      assert base6 == "" ==> ipv6 == "::" + Itoa(octet);
      assert ipv6[|ipv6| - 1] == Itoa(octet)[|Itoa(octet)| - 1];
      assert ipv6[|base6|] == ':';
    }
    AddressesReadBack(ipv4, ipv6);
    var allowed := AllowedIPsFor(ipv4, ipv6);
    assert allowed[|allowed| - 1] == '8';
  }
}
