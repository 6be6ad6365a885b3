/**
  The size-bounded list of setup probes that src/wifi_prov.rs publishes over BLE, and how its
  reader takes it apart. Texts are sequences of UTF-8 bytes, one `char` per byte, so that their
  length is the length in bytes.
 */
module ProbeList {
  import opened Machine
  import opened Texts
  import opened Wrappers

  const MAX_PROBE_RESULT_BYTES := 220

  datatype SetupProbe = SetupProbe(probeUuid: string, name: string, versionMajor: Byte, versionMinor: Byte)

  // ---------- Numbers ----------

  function Digit(n: int): char
    requires 0 <= n < 10
  {
    ('0' as int + n) as char
  }

  /** A byte in decimal, without leading zeros. */
  function Decimal(n: Byte): (s: string)
    ensures |s| >= 1
    ensures forall i :: 0 <= i < |s| ==> '0' <= s[i] <= '9'
  {
    if n < 10 then [Digit(n)]
    else if n < 100 then [Digit(n / 10), Digit(n % 10)]
    else [Digit(n / 100), Digit(n / 10 % 10), Digit(n % 10)]
  }

  function ValueOf(s: string): Option<int> {
    if s == "" then Some(0)
    else
      var front, c := ValueOf(s[..|s| - 1]), s[|s| - 1];
      if front.Some? && '0' <= c <= '9' then Some(10 * front.value + (c as int - '0' as int)) else None
  }

  lemma ValueNext(s: string, c: char)
    requires ValueOf(s).Some? && '0' <= c <= '9'
    ensures ValueOf(s + [c]) == Some(10 * ValueOf(s).value + (c as int - '0' as int))
  {
    assert (s + [c])[..|s|] == s;
  }

  lemma OneDigit(a: int)
    requires 0 <= a < 10
    ensures ValueOf([Digit(a)]) == Some(a)
  {
    ValueNext("", Digit(a));
    assert "" + [Digit(a)] == [Digit(a)];
  }

  lemma TwoDigits(a: int, b: int)
    requires 0 <= a < 10 && 0 <= b < 10
    ensures ValueOf([Digit(a), Digit(b)]) == Some(10 * a + b)
  {
    OneDigit(a);
    ValueNext([Digit(a)], Digit(b));
    assert [Digit(a)] + [Digit(b)] == [Digit(a), Digit(b)];
  }

  lemma ThreeDigits(a: int, b: int, c: int)
    requires 0 <= a < 10 && 0 <= b < 10 && 0 <= c < 10
    ensures ValueOf([Digit(a), Digit(b), Digit(c)]) == Some(100 * a + 10 * b + c)
  {
    TwoDigits(a, b);
    ValueNext([Digit(a), Digit(b)], Digit(c));
    assert [Digit(a), Digit(b)] + [Digit(c)] == [Digit(a), Digit(b), Digit(c)];
  }

  /** No leading zeros. */
  lemma DecimalStartsWithZeroOnlyForZero(n: Byte)
    ensures Decimal(n)[0] == '0' <==> n == 0
    ensures n == 0 ==> |Decimal(n)| == 1
  {
  }

  lemma DecimalRoundTrip(n: Byte)
    ensures ValueOf(Decimal(n)) == Some(n)
  {
    if n < 10 {
      OneDigit(n);
    } else if n < 100 {
      TwoDigits(n / 10, n % 10);
    } else {
      ThreeDigits(n / 100, n / 10 % 10, n % 10);
    }
  }

  // ---------- Lines that fit ----------

  /** The first `k` lines, joined by newlines. */
  function Joined(lines: seq<string>, k: nat): string
    requires k <= |lines|
  {
    if k == 0 then "" else if k == 1 then lines[0] else Joined(lines, k - 1) + ['\n'] + lines[k - 1]
  }

  /** How many lines fit, counting on from `k`. */
  function FitFrom(lines: seq<string>, k: nat): (n: nat)
    requires k <= |lines|
    ensures k <= n <= |lines|
    decreases |lines| - k
  {
    if k == |lines| || |Joined(lines, k + 1)| > MAX_PROBE_RESULT_BYTES then k else FitFrom(lines, k + 1)
  }

  lemma JoinedNext(lines: seq<string>, k: nat)
    requires k < |lines| && lines[k] != ""
    ensures Joined(lines, k + 1) == if k == 0 then lines[k] else Joined(lines, k) + ['\n'] + lines[k]
    ensures Joined(lines, k + 1) != ""
    ensures |Joined(lines, k + 1)| == |lines[k]| + if k == 0 then 0 else |Joined(lines, k)| + 1
  {
  }

  predicate NoneEmpty(lines: seq<string>) {
    forall i :: 0 <= i < |lines| ==> lines[i] != ""
  }

  lemma {:induction false} JoinedGrows(lines: seq<string>, j: nat, k: nat)
    requires j < k <= |lines| && NoneEmpty(lines)
    ensures |Joined(lines, j)| < |Joined(lines, k)|
  {
    if j < k - 1 {
      JoinedGrows(lines, j, k - 1);
    }
  }

  lemma {:induction false} FitFromFits(lines: seq<string>, k: nat)
    requires k <= |lines| && |Joined(lines, k)| <= MAX_PROBE_RESULT_BYTES
    ensures |Joined(lines, FitFrom(lines, k))| <= MAX_PROBE_RESULT_BYTES
    ensures FitFrom(lines, k) < |lines| ==> |Joined(lines, FitFrom(lines, k) + 1)| > MAX_PROBE_RESULT_BYTES
    decreases |lines| - k
  {
    if FitFrom(lines, k) != k {
      FitFromFits(lines, k + 1);
    }
  }

  /** The lines counted are the longest prefix that fits: a prefix fits exactly when it is no longer. */
  lemma LongestPrefixFits(lines: seq<string>, j: nat)
    requires j <= |lines| && NoneEmpty(lines)
    ensures |Joined(lines, j)| <= 220 <==> j <= FitFrom(lines, 0)
  {
    var n := FitFrom(lines, 0);
    FitFromFits(lines, 0);
    if j < n {
      JoinedGrows(lines, j, n);
    } else if n + 1 < j {
      JoinedGrows(lines, n + 1, j);
    }
  }

  // ---------- The printer ----------

  function Version(major: Byte, minor: Byte): string {
    Decimal(major) + ['.'] + Decimal(minor)
  }

  /** `uuid|name|major.minor`. */
  function Line(p: SetupProbe): (s: string)
    ensures s != ""
  {
    var s := p.probeUuid + ['|'] + p.name + ['|'] + Version(p.versionMajor, p.versionMinor);
    assert |s| >= 2;
    s
  }

  function Lines(probes: seq<SetupProbe>): (lines: seq<string>)
    ensures |lines| == |probes| && NoneEmpty(lines)
  {
    seq(|probes|, i requires 0 <= i < |probes| => Line(probes[i]))
  }

  /** `encode_setup_probes`. */
  method EncodeSetupProbes(probes: seq<SetupProbe>) returns (encoded: string)
    ensures encoded == Joined(Lines(probes), FitFrom(Lines(probes), 0))
  {
    encoded := JoinWhileFitting(Lines(probes));
  }

  /** Its loop; formatting a line has no effect, so the lines are taken as formatted beforehand. */
  method JoinWhileFitting(lines: seq<string>) returns (encoded: string)
    requires NoneEmpty(lines)
    ensures encoded == Joined(lines, FitFrom(lines, 0))
  {
    encoded := "";
    for k := 0 to |lines|
      invariant encoded == Joined(lines, k)
      invariant encoded == "" <==> k == 0
      invariant FitFrom(lines, k) == FitFrom(lines, 0)
    {
      JoinedNext(lines, k);
      var separatorLen := if encoded != "" then 1 else 0;
      if |encoded| + separatorLen + |lines[k]| > MAX_PROBE_RESULT_BYTES {
        break;
      }
      if encoded != "" {
        encoded := encoded + ['\n'];
      }
      encoded := encoded + lines[k];
    }
  }

  // ---------- The reader ----------

  function ParseByte(s: string): Option<Byte> {
    match ValueOf(s)
    case None => None
    case Some(n) => if 0 <= n < 256 then Some(n) else None
  }

  function ParseVersion(s: string): Option<(Byte, Byte)> {
    var parts := Split(s, '.');
    if |parts| != 2 || ParseByte(parts[0]).None? || ParseByte(parts[1]).None? then None
    else Some((ParseByte(parts[0]).value, ParseByte(parts[1]).value))
  }

  function ParseLine(line: string): Option<SetupProbe> {
    var fields := Split(line, '|');
    if |fields| != 3 || ParseVersion(fields[2]).None? then None
    else Some(SetupProbe(fields[0], fields[1], ParseVersion(fields[2]).value.0, ParseVersion(fields[2]).value.1))
  }

  function ParseLines(lines: seq<string>): Option<seq<SetupProbe>> {
    if lines == [] then Some([])
    else
      var front, last := ParseLines(lines[..|lines| - 1]), ParseLine(lines[|lines| - 1]);
      if front.Some? && last.Some? then Some(front.value + [last.value]) else None
  }

  function ParseListing(s: string): Option<seq<SetupProbe>> {
    if s == "" then Some([]) else ParseLines(Split(s, '\n'))
  }

  /** Nothing in the probe's texts looks like a separator. */
  predicate Printable(p: SetupProbe) {
    Lacks(p.probeUuid, '\n') && Lacks(p.probeUuid, '|') && Lacks(p.name, '\n') && Lacks(p.name, '|')
  }

  lemma DecimalLacks(n: Byte, c: char)
    requires c < '0' || '9' < c
    ensures Lacks(Decimal(n), c)
  {
  }

  lemma ParseByteOfDecimal(n: Byte)
    ensures ParseByte(Decimal(n)) == Some(n)
  {
    DecimalRoundTrip(n);
  }

  lemma SplitTwo(a: string, b: string, sep: char)
    requires Lacks(a, sep) && Lacks(b, sep)
    ensures Split(a + [sep] + b, sep) == [a, b]
  {
    SplitWhole(a, sep);
    SplitLast(a, sep, b);
  }

  lemma SplitThree(a: string, b: string, c: string, sep: char)
    requires Lacks(a, sep) && Lacks(b, sep) && Lacks(c, sep)
    ensures Split(a + [sep] + b + [sep] + c, sep) == [a, b, c]
  {
    SplitTwo(a, b, sep);
    SplitLast(a + [sep] + b, sep, c);
  }

  lemma LacksJoined(a: string, b: string, sep: char, c: char)
    requires Lacks(a, c) && Lacks(b, c) && sep != c
    ensures Lacks(a + [sep] + b, c)
  {
  }

  lemma VersionLacks(major: Byte, minor: Byte, c: char)
    requires c == '|' || c == '\n'
    ensures Lacks(Version(major, minor), c)
  {
    DecimalLacks(major, c);
    DecimalLacks(minor, c);
    LacksJoined(Decimal(major), Decimal(minor), '.', c);
  }

  lemma VersionRoundTrip(major: Byte, minor: Byte)
    ensures ParseVersion(Version(major, minor)) == Some((major, minor))
  {
    DecimalLacks(major, '.');
    DecimalLacks(minor, '.');
    SplitTwo(Decimal(major), Decimal(minor), '.');
    ParseByteOfDecimal(major);
    ParseByteOfDecimal(minor);
  }

  lemma LineRoundTrip(p: SetupProbe)
    requires Printable(p)
    ensures Lacks(Line(p), '\n') && ParseLine(Line(p)) == Some(p)
  {
    var version := Version(p.versionMajor, p.versionMinor);
    VersionRoundTrip(p.versionMajor, p.versionMinor);
    VersionLacks(p.versionMajor, p.versionMinor, '|');
    VersionLacks(p.versionMajor, p.versionMinor, '\n');
    SplitThree(p.probeUuid, p.name, version, '|');
    LacksJoined(p.probeUuid, p.name, '|', '\n');
    LacksJoined(p.probeUuid + ['|'] + p.name, version, '|', '\n');
  }

  /** Splitting at the newlines gives back the lines. */
  lemma {:induction false} SplitJoined(lines: seq<string>, k: nat)
    requires 0 < k <= |lines| && forall i :: 0 <= i < k ==> Lacks(lines[i], '\n')
    ensures Split(Joined(lines, k), '\n') == lines[..k]
  {
    if k == 1 {
      SplitWhole(lines[0], '\n');
    } else {
      var earlier, last := Joined(lines, k - 1), lines[k - 1];
      SplitJoined(lines, k - 1);
      SplitLast(earlier, '\n', last);
      assert Joined(lines, k) == earlier + ['\n'] + last;
      assert lines[..k] == lines[..k - 1] + [last];
    }
  }

  lemma {:induction false} ParseLinesOf(lines: seq<string>, probes: seq<SetupProbe>)
    requires |lines| == |probes| && forall i :: 0 <= i < |lines| ==> ParseLine(lines[i]) == Some(probes[i])
    ensures ParseLines(lines) == Some(probes)
    decreases |lines|
  {
    if lines != [] {
      var n := |lines| - 1;
      ParseLinesOf(lines[..n], probes[..n]);
      assert probes == probes[..n] + [probes[n]];
    }
  }

  /** Reading back what was printed gives exactly the probes that fitted. */
  lemma PrintedListReadsBack(probes: seq<SetupProbe>)
    requires forall i :: 0 <= i < FitFrom(Lines(probes), 0) ==> Printable(probes[i])
    ensures var n := FitFrom(Lines(probes), 0);
      ParseListing(Joined(Lines(probes), n)) == Some(probes[..n])
  {
    var lines, n := Lines(probes), FitFrom(Lines(probes), 0);
    if n > 0 {
      forall i | 0 <= i < n
        ensures Lacks(lines[i], '\n') && ParseLine(lines[i]) == Some(probes[i])
      {
        LineRoundTrip(probes[i]);
      }
      JoinedGrows(lines, 0, n);
      SplitJoined(lines, n);
      ParseLinesOf(lines[..n], probes[..n]);
    }
  }
}
