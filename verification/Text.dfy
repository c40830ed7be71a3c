/** The string operations the configuration code is built from: splitting and
    joining, trimming, prefixes and decimal numbers. Whitespace is ASCII. */
module Text {

  predicate IsSpace(c: char) {
    c == ' ' || c == '\t' || c == '\n' || c == '\r' || c == '\U{000B}' || c == '\U{000C}'
  }

  function TrimLeft(s: string): string {
    if s != "" && IsSpace(s[0]) then TrimLeft(s[1..]) else s
  }

  function TrimRight(s: string): string {
    if s != "" && IsSpace(s[|s| - 1]) then TrimRight(s[..|s| - 1]) else s
  }

  function TrimSpace(s: string): string {
    TrimRight(TrimLeft(s))
  }

  /** Drops newlines at the end. */
  function TrimNewlines(s: string): string {
    if s != "" && s[|s| - 1] == '\n' then TrimNewlines(s[..|s| - 1]) else s
  }

  predicate HasPrefix(s: string, prefix: string) {
    prefix <= s
  }

  function TrimPrefix(s: string, prefix: string): string {
    if prefix <= s then s[|prefix|..] else s
  }

  function TrimSuffix(s: string, suffix: string): string {
    if |suffix| <= |s| && s[|s| - |suffix|..] == suffix then s[..|s| - |suffix|] else s
  }

  /** The pieces between separators; always at least one. */
  function Split(s: string, sep: char): (parts: seq<string>)
    ensures |parts| >= 1
  {
    if s == "" then [""]
    else
      var rest := Split(s[1..], sep);
      if s[0] == sep then [""] + rest else Prepend(s[0], rest)
  }

  function Prepend(c: char, parts: seq<string>): seq<string>
    requires parts != []
  {
    [[c] + parts[0]] + parts[1..]
  }

  function Join(parts: seq<string>, sep: char): string {
    if |parts| == 0 then ""
    else if |parts| == 1 then parts[0]
    else parts[0] + [sep] + Join(parts[1..], sep)
  }

  /** No piece contains the separator. */
  ghost predicate Separated(parts: seq<string>, sep: char) {
    forall i :: 0 <= i < |parts| ==> sep !in parts[i]
  }

  // ---- trimming ------------------------------------------------------------

  ghost predicate Trimmed(s: string) {
    s == "" || (!IsSpace(s[0]) && !IsSpace(s[|s| - 1]))
  }

  /** Nothing to trim on the right, and one line. */
  ghost predicate EndsClean(s: string) {
    '\n' !in s && (s == "" || !IsSpace(s[|s| - 1]))
  }

  /** One piece of a comma-separated line: no commas and nothing to trim. */
  ghost predicate Word(s: string) {
    s != "" && ',' !in s && '\n' !in s && !IsSpace(s[0]) && !IsSpace(s[|s| - 1])
  }

  lemma TrimSpaceOfTrimmed(s: string)
    requires Trimmed(s)
    ensures TrimSpace(s) == s
  {
  }

  lemma {:induction false} TrimRightDropsSpace(s: string, c: char)
    requires IsSpace(c)
    ensures TrimRight(s + [c]) == TrimRight(s)
  {
    assert (s + [c])[..|s|] == s;
  }

  lemma {:induction false} TrimLeftDropsSuffix(s: string, c: char)
    requires IsSpace(c)
    ensures TrimLeft(s + [c]) == if TrimLeft(s) == "" then "" else TrimLeft(s) + [c]
  {
    if s == "" {
      assert (s + [c])[1..] == "";
    } else {
      assert (s + [c])[1..] == s[1..] + [c];
      if IsSpace(s[0]) {
        TrimLeftDropsSuffix(s[1..], c);
      }
    }
  }

  lemma TrimSpaceDropsSuffix(s: string, c: char)
    requires IsSpace(c)
    ensures TrimSpace(s + [c]) == TrimSpace(s)
  {
    TrimLeftDropsSuffix(s, c);
    TrimRightDropsSpace(TrimLeft(s), c);
  }

  // ---- splitting and joining -----------------------------------------------

  lemma {:induction false} JoinSplit(s: string, sep: char)
    ensures Join(Split(s, sep), sep) == s
    ensures Separated(Split(s, sep), sep)
  {
    if s != "" {
      var rest := Split(s[1..], sep);
      JoinSplit(s[1..], sep);
      var parts := Split(s, sep);
      if s[0] == sep {
        assert parts[1..] == rest;
        assert Join(parts, sep) == "" + [sep] + Join(rest, sep);
      } else {
        assert parts[1..] == rest[1..];
        assert |rest| > 1 ==> Join(parts, sep) == [s[0]] + rest[0] + [sep] + Join(rest[1..], sep);
      }
    }
  }

  lemma {:induction false} SplitWithoutSep(s: string, sep: char)
    requires sep !in s
    ensures Split(s, sep) == [s]
  {
    if s != "" {
      SplitWithoutSep(s[1..], sep);
      assert [s[0]] + s[1..] == s;
    }
  }

  lemma {:induction false} SplitConcat(a: string, sep: char, b: string)
    ensures Split(a + [sep] + b, sep) == Split(a, sep) + Split(b, sep)
  {
    var whole := a + [sep] + b;
    if a == "" {
      assert whole[1..] == b;
    } else {
      assert whole[0] == a[0] && whole[1..] == a[1..] + [sep] + b;
      SplitConcat(a[1..], sep, b);
      PrependConcat(a[0], Split(a[1..], sep), Split(b, sep));
      assert [""] + (Split(a[1..], sep) + Split(b, sep)) == [""] + Split(a[1..], sep) + Split(b, sep);
    }
  }

  lemma PrependConcat(c: char, a: seq<string>, b: seq<string>)
    requires a != []
    ensures Prepend(c, a + b) == Prepend(c, a) + b
  {
    assert (a + b)[1..] == a[1..] + b;
  }

  lemma {:induction false} SplitJoin(parts: seq<string>, sep: char)
    requires parts != [] && Separated(parts, sep)
    ensures Split(Join(parts, sep), sep) == parts
  {
    SplitWithoutSep(parts[0], sep);
    if |parts| > 1 {
      SplitJoin(parts[1..], sep);
      SplitConcat(parts[0], sep, Join(parts[1..], sep));
      assert parts == [parts[0]] + parts[1..];
    }
  }

  lemma {:induction false} JoinConcat(a: seq<string>, b: seq<string>, sep: char)
    requires a != [] && b != []
    ensures Join(a + b, sep) == Join(a, sep) + [sep] + Join(b, sep)
  {
    assert (a + b)[1..] == a[1..] + b;
    if |a| > 1 {
      JoinConcat(a[1..], b, sep);
    } else {
      assert a[1..] + b == b;
    }
  }

  // ---- newlines at the end -------------------------------------------------

  /** `count` empty lines. */
  function EmptyLines(count: nat): seq<string> {
    seq(count, _ => "")
  }

  /** Exactly one newline at the end. */
  function OneNewline(s: string): string {
    TrimNewlines(s) + "\n"
  }

  lemma TrimNewlinesDrops(s: string)
    ensures TrimNewlines(s + "\n") == TrimNewlines(s)
  {
    assert (s + "\n")[..|s|] == s;
  }

  lemma {:induction false} SplitTrimmed(s: string) returns (count: nat)
    ensures Split(s, '\n') == Split(TrimNewlines(s), '\n') + EmptyLines(count)
  {
    if s != "" && s[|s| - 1] == '\n' {
      var shorter := s[..|s| - 1];
      var n := SplitTrimmed(shorter);
      assert s == shorter + ['\n'] + "";
      SplitConcat(shorter, '\n', "");
      count := n + 1;
      assert EmptyLines(n) + [""] == EmptyLines(count);
    } else {
      count := 0;
    }
  }

  lemma SplitOneNewline(s: string)
    ensures Split(OneNewline(s), '\n') == Split(TrimNewlines(s), '\n') + [""]
  {
    assert OneNewline(s) == TrimNewlines(s) + ['\n'] + "";
    SplitConcat(TrimNewlines(s), '\n', "");
  }

  /** Empty lines at the end do not change the normalised text. */
  lemma {:induction false} JoinEmptyLines(lines: seq<string>, count: nat)
    ensures OneNewline(Join(lines + EmptyLines(count), '\n')) == OneNewline(Join(lines, '\n'))
  {
    if count == 0 {
      assert lines + EmptyLines(0) == lines;
    } else {
      var shorter := lines + EmptyLines(count - 1);
      assert lines + EmptyLines(count) == shorter + [""];
      JoinEmptyLines(lines, count - 1);
      if shorter != [] {
        JoinConcat(shorter, [""], '\n');
        TrimNewlinesDrops(Join(shorter, '\n'));
        assert Join(shorter, '\n') + ['\n'] + "" == Join(shorter, '\n') + "\n";
      }
    }
  }

  // ---- decimal numbers -----------------------------------------------------

  function Digit(d: nat): char
    requires d < 10
  {
    '0' + d as char
  }

  function Itoa(n: nat): string {
    if n < 10 then [Digit(n)] else Itoa(n / 10) + [Digit(n % 10)]
  }

  function Atoi(s: string): int {
    if s == "" then 0 else Atoi(s[..|s| - 1]) * 10 + (s[|s| - 1] as int - '0' as int)
  }

  lemma {:induction false} AtoiOfItoa(n: nat)
    ensures Itoa(n) != "" && Atoi(Itoa(n)) == n
    ensures forall i :: 0 <= i < |Itoa(n)| ==> '0' <= Itoa(n)[i] <= '9'
  {
    if n < 10 {
      assert Itoa(n)[..0] == "";
    } else {
      AtoiOfItoa(n / 10);
      assert Itoa(n)[..|Itoa(n)| - 1] == Itoa(n / 10);
    }
  }

  /** Digits in the usual order, the most significant one first. */
  lemma DecimalIs(n: nat)
    ensures n < 10 ==> Itoa(n) == ["0123456789"[n]]
    ensures n >= 10 ==> Itoa(n) == Itoa(n / 10) + ["0123456789"[n % 10]]
  {
    assert forall d :: 0 <= d < 10 ==> "0123456789"[d] == Digit(d);
  }

  /** Different numbers print differently. */
  lemma ItoaInjective(a: nat, b: nat)
    requires Itoa(a) == Itoa(b)
    ensures a == b
  {
    AtoiOfItoa(a);
    AtoiOfItoa(b);
  }
}
