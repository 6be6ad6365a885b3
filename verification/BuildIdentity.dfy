/**
  The identity that build.rs generates and keeps in a file: a version 4 UUID in canonical form,
  and a file that reads back as it was written.
 */
module BuildIdentity {
  import opened Machine
  import opened Texts
  import opened Uuid
  import opened Wrappers

  // ---------- The UUID ----------

  /** Section 5.4 of RFC 9562: version 4 in the seventh byte, variant 10 in the ninth. */
  function Stamped(random: CompactId): CompactId {
    random[6 := random[6] % 16 + 64][8 := random[8] % 64 + 128]
  }

  /** `generate_uuid_v4`, with the random bytes as an input; the buffer is stamped in place and printed. */
  method GenerateUuidV4(random: CompactId) returns (out: string)
    ensures out == Canonical(Stamped(random))
  {
    var bytes := new Byte[16](i requires 0 <= i < 16 => random[i]);
    bytes[6] := bytes[6] % 16 + 64;
    bytes[8] := bytes[8] % 64 + 128;
    ghost var stamped := Stamped(random);
    assert bytes[..] == stamped;
    out := "";
    for i := 0 to 16
      invariant bytes[..] == stamped
      invariant out == Canonical(stamped)[..PrintedLength(i)]
    {
      PrintedStep(stamped, i);
      if StartsGroup(i) {
        out := out + "-";
      }
      out := out + [HexDigit(bytes[i] / 16)] + [HexDigit(bytes[i] % 16)];
    }
  }

  /** The text is canonical, shows version 4 and variant 10, and carries the other 122 random bits. */
  lemma GeneratedUuidIsVersion4(random: CompactId)
    ensures var out := Canonical(Stamped(random));
      && IsCanonical(out)
      && out[14] == '4' && (out[19] == '8' || out[19] == '9' || out[19] == 'a' || out[19] == 'b')
      && ParseUuid(out) == Some(Stamped(random))
    ensures forall i :: 0 <= i < 16 && i != 6 && i != 8 ==> Stamped(random)[i] == random[i]
    ensures Stamped(random)[6] % 16 == random[6] % 16 && Stamped(random)[8] % 64 == random[8] % 64
  {
    var id := Stamped(random);
    CanonicalIsCanonical(id);
    ParseOfCanonical(id);
    VersionAndVariantDigits(id);
    StampedBits(random);
  }

  /** Where the high digits of the seventh and the ninth byte appear in the text. */
  lemma VersionAndVariantDigits(id: CompactId)
    ensures |Canonical(id)| > 19
    ensures Canonical(id)[14] == HexDigit(id[6] / 16) && Canonical(id)[19] == HexDigit(id[8] / 16)
  {
    CanonicalIsCanonical(id);
    assert Canonical(id)[14] == Hex(id)[12];
    assert Canonical(id)[19] == Hex(id)[16];
  }

  lemma StampedBits(random: CompactId)
    ensures var id := Stamped(random);
      && id[6] / 16 == 4 && 8 <= id[8] / 16 <= 11
      && id[6] % 16 == random[6] % 16 && id[8] % 64 == random[8] % 64
  {
    var low, lower: int := random[6] % 16, random[8] % 64;
    assert (low + 64) / 16 == 4 && 8 <= (lower + 128) / 16 <= 11;
  }

  // ---------- The identity file ----------

  datatype HubIdentity = HubIdentity(deviceId: string, hubSecret: string)

  const ID_KEY := "HUB_DEVICE_ID="
  const SECRET_KEY := "HUB_SECRET="

  /** The file that `generated_identity` writes. */
  function FileOf(identity: HubIdentity): string {
    ID_KEY + identity.deviceId + ['\n'] + (SECRET_KEY + identity.hubSecret) + ['\n']
  }

  /** A line without its carriage return. */
  function Trimmed(line: string): string {
    if line != "" && line[|line| - 1] == '\r' then line[..|line| - 1] else line
  }

  /**
    `str::lines`: each line that a newline ends, without its carriage return, and the rest as it is, if
    there is any.
   */
  function LinesOf(content: string): seq<string> {
    var pieces := Split(content, '\n');
    var ended, rest := |pieces| - 1, pieces[|pieces| - 1];
    seq(ended, i requires 0 <= i < ended => Trimmed(pieces[i])) + if rest == "" then [] else [rest]
  }

  lemma EndedLine(line: string, rest: string)
    requires Lacks(line, '\n')
    ensures LinesOf(line + ['\n'] + rest) == [Trimmed(line)] + LinesOf(rest)
  {
    SplitFirst(line, '\n', rest);
  }

  /** Taking a text apart line by line: an ended line loses one carriage return, and the unended rest loses none. */
  lemma LinesOneByOne(line: string, rest: string)
    requires Lacks(line, '\n')
    ensures LinesOf(line + ['\r'] + ['\n'] + rest) == [line] + LinesOf(rest)
    ensures line == "" || line[|line| - 1] != '\r' ==> LinesOf(line + ['\n'] + rest) == [line] + LinesOf(rest)
    ensures LinesOf(line) == if line == "" then [] else [line]
  {
    EndedLine(line, rest);
    EndedLine(line + ['\r'], rest);
    assert (line + ['\r'])[..|line|] == line;
    SplitWhole(line, '\n');
  }

  /** The value of the last line with this key; a line with the identifier's key is not looked at for the secret. */
  function LastValue(lines: seq<string>, key: string): Option<string> {
    if lines == [] then None
    else
      var line := lines[|lines| - 1];
      if key <= line then Some(line[|key|..]) else LastValue(lines[..|lines| - 1], key)
  }

  /** The line at `i` is the last one that starts with the key, and the value is the rest of it. */
  predicate LastWithKey(lines: seq<string>, key: string, i: nat, value: string) {
    && i < |lines| && lines[i] == key + value
    && forall j :: i < j < |lines| ==> !(key <= lines[j])
  }

  lemma {:induction false} LastValueExactly(lines: seq<string>, key: string, value: string)
    ensures LastValue(lines, key) == Some(value) <==> exists i: nat :: LastWithKey(lines, key, i, value)
  {
    if lines != [] {
      var n := |lines| - 1;
      var front, line := lines[..n], lines[n];
      LastValueExactly(front, key, value);
      if key <= line {
        assert line == key + line[|key|..];
        assert line == key + value ==> LastWithKey(lines, key, n, value);
        forall i: nat | LastWithKey(lines, key, i, value) ensures line[|key|..] == value {
          assert i == n;
        }
      } else {
        forall i: nat ensures LastWithKey(lines, key, i, value) <==> LastWithKey(front, key, i, value) {
          if LastWithKey(lines, key, i, value) {
            assert i < n;
          }
        }
      }
    }
  }

  /** A file is read exactly if both keys occur, and then each value is that of the last line with its key. */
  lemma ParsedFileExactly(content: string, identity: HubIdentity)
    ensures ParsedFile(content) == Some(identity) <==>
      && (exists i: nat :: LastWithKey(LinesOf(content), "HUB_DEVICE_ID=", i, identity.deviceId))
      && (exists i: nat :: LastWithKey(LinesOf(content), "HUB_SECRET=", i, identity.hubSecret))
  {
    LastValueExactly(LinesOf(content), "HUB_DEVICE_ID=", identity.deviceId);
    LastValueExactly(LinesOf(content), "HUB_SECRET=", identity.hubSecret);
  }

  /** `parse_identity_file`. */
  method ParseIdentityFile(content: string) returns (identity: Option<HubIdentity>)
    ensures identity == ParsedFile(content)
  {
    var deviceId: Option<string> := None;
    var hubSecret: Option<string> := None;
    var lines := LinesOf(content);
    for i := 0 to |lines|
      invariant deviceId == LastValue(lines[..i], ID_KEY)
      invariant hubSecret == LastValue(lines[..i], SECRET_KEY)
    {
      assert lines[..i + 1][..i] == lines[..i];
      KeysDiffer(lines[i]);
      if ID_KEY <= lines[i] {
        deviceId := Some(lines[i][|ID_KEY|..]);
      } else if SECRET_KEY <= lines[i] {
        hubSecret := Some(lines[i][|SECRET_KEY|..]);
      }
    }
    assert lines[..|lines|] == lines;
    if deviceId.None? || hubSecret.None? {
      return None;
    }
    return Some(HubIdentity(deviceId.value, hubSecret.value));
  }

  function ParsedFile(content: string): Option<HubIdentity> {
    var deviceId, hubSecret := LastValue(LinesOf(content), ID_KEY), LastValue(LinesOf(content), SECRET_KEY);
    if deviceId.None? || hubSecret.None? then None else Some(HubIdentity(deviceId.value, hubSecret.value))
  }

  lemma KeysDiffer(line: string)
    ensures !(ID_KEY <= line && SECRET_KEY <= line)
  {
    if ID_KEY <= line {
      assert line[4] == ID_KEY[4] == 'D';
    }
    if SECRET_KEY <= line {
      assert line[4] == SECRET_KEY[4] == 'S';
    }
  }

  lemma KeyedLine(key: string, value: string)
    ensures key <= key + value && (key + value)[|key|..] == value
  {
  }

  lemma TrimmedKeyed(key: string, value: string)
    requires key != "" && key[|key| - 1] != '\r'
    ensures Trimmed(key + value) == key + Trimmed(value)
  {
  }

  /** The lines of the file, which lose a carriage return that a value ends with. */
  lemma LinesOfFile(identity: HubIdentity)
    requires Lacks(identity.deviceId, '\n') && Lacks(identity.hubSecret, '\n')
    ensures LinesOf(FileOf(identity)) == [ID_KEY + Trimmed(identity.deviceId), SECRET_KEY + Trimmed(identity.hubSecret)]
  {
    var a, b := ID_KEY + identity.deviceId, SECRET_KEY + identity.hubSecret;
    assert Lacks(a, '\n') && Lacks(b, '\n');
    SplitWhole(a, '\n');
    SplitLast(a, '\n', b);
    SplitLast(a + ['\n'] + b, '\n', "");
    assert FileOf(identity) == a + ['\n'] + b + ['\n'] + "";
    assert Split(FileOf(identity), '\n') == [a, b, ""];
    TrimmedKeyed(ID_KEY, identity.deviceId);
    TrimmedKeyed(SECRET_KEY, identity.hubSecret);
    assert LinesOf(FileOf(identity)) == [Trimmed(a), Trimmed(b)];
  }

  /** Without newlines in the values, the file reads back exactly when neither ends in a carriage return. */
  lemma FileReadsBack(identity: HubIdentity)
    requires Lacks(identity.deviceId, '\n') && Lacks(identity.hubSecret, '\n')
    ensures ParsedFile(FileOf(identity)) == Some(identity)
       <==> Trimmed(identity.deviceId) == identity.deviceId && Trimmed(identity.hubSecret) == identity.hubSecret
  {
    LinesOfFile(identity);
    var first, second := ID_KEY + Trimmed(identity.deviceId), SECRET_KEY + Trimmed(identity.hubSecret);
    KeyedLine(ID_KEY, Trimmed(identity.deviceId));
    KeyedLine(SECRET_KEY, Trimmed(identity.hubSecret));
    KeysDiffer(first);
    KeysDiffer(second);
    var lines := [first, second];
    assert lines[..1] == [first];
    assert LastValue(lines, SECRET_KEY) == Some(Trimmed(identity.hubSecret));
    assert LastValue(lines, ID_KEY) == LastValue([first], ID_KEY) == Some(Trimmed(identity.deviceId));
  }

  /** So a generated identity, being hexadecimal, always reads back. */
  lemma GeneratedIdentityReadsBack(random: CompactId, secret: seq<Byte>)
    ensures var identity := HubIdentity(Canonical(Stamped(random)), Hex(secret));
      ParsedFile(FileOf(identity)) == Some(identity)
  {
    CanonicalIsCanonical(Stamped(random));
    PackHex(secret);
    FileReadsBack(HubIdentity(Canonical(Stamped(random)), Hex(secret)));
  }
}
