/**
  The UUID text forms: the nibble-loop parser of src/ble.rs and the printers of src/ble.rs and
  src/polling.rs, against the canonical 8-4-4-4-12 form of section 4 of RFC 9562.
 */
module Uuid {
  import opened Machine
  import opened Wrappers

  const ID_LEN := 16

  type CompactId = bytes: seq<Byte> | |bytes| == 16
    witness [0, 0, 0, 0, 0, 0, 0, 0, 0, 0, 0, 0, 0, 0, 0, 0]

  // ---------- Hexadecimal digits ----------

  /** `hex_digit` and `nibble_to_hex`, for the nibbles a byte can hold. */
  function HexDigit(n: int): char
    requires 0 <= n < 16
  {
    if n < 10 then ('0' as int + n) as char else ('a' as int + (n - 10)) as char
  }

  predicate IsHex(c: char) {
    '0' <= c <= '9' || 'a' <= c <= 'f' || 'A' <= c <= 'F'
  }

  predicate IsLowerHex(c: char) {
    '0' <= c <= '9' || 'a' <= c <= 'f'
  }

  function Nibble(c: char): (n: int)
    requires IsHex(c)
    ensures 0 <= n < 16
  {
    if '0' <= c <= '9' then c as int - '0' as int
    else if 'a' <= c <= 'f' then c as int - 'a' as int + 10
    else c as int - 'A' as int + 10
  }

  predicate AllHex(s: string) {
    forall i :: 0 <= i < |s| ==> IsHex(s[i])
  }

  function Lower(c: char): char {
    if 'A' <= c <= 'F' then (c as int - 'A' as int + 'a' as int) as char else c
  }

  function LowerAll(s: string): string {
    seq(|s|, i requires 0 <= i < |s| => Lower(s[i]))
  }

  /** Two lowercase digits for each byte. */
  function Hex(bytes: seq<Byte>): (s: string)
    ensures |s| == 2 * |bytes|
  {
    seq(2 * |bytes|, i requires 0 <= i < 2 * |bytes| =>
      HexDigit(if i % 2 == 0 then bytes[i / 2] / 16 else bytes[i / 2] % 16))
  }

  /** The digits and their values, spelled out; both cases are read, and the lower one is printed. */
  lemma HexAlphabet(n: int)
    requires 0 <= n < 16
    ensures HexDigit(n) == "0123456789abcdef"[n]
    ensures IsHex("0123456789abcdef"[n]) && Nibble("0123456789abcdef"[n]) == n
    ensures IsHex("0123456789ABCDEF"[n]) && Nibble("0123456789ABCDEF"[n]) == n
  {
  }

  /** One byte for each pair of digits. */
  function Pack(digits: string): (bytes: seq<Byte>)
    requires AllHex(digits)
    ensures |bytes| == |digits| / 2
  {
    seq(|digits| / 2, i requires 0 <= i < |digits| / 2 => 16 * Nibble(digits[2 * i]) + Nibble(digits[2 * i + 1]))
  }

  /** A further digit completes a byte, or waits for its partner. */
  lemma PackNext(digits: string, c: char)
    requires AllHex(digits) && IsHex(c)
    ensures AllHex(digits + [c])
    ensures Pack(digits + [c])
         == Pack(digits) + if |digits| % 2 == 1 then [16 * Nibble(digits[|digits| - 1]) + Nibble(c)] else []
  {
    forall k | 0 <= k < |digits| / 2
      ensures Pack(digits + [c])[k] == Pack(digits)[k]
    {
      assert (digits + [c])[2 * k] == digits[2 * k] && (digits + [c])[2 * k + 1] == digits[2 * k + 1];
    }
  }

  // ---------- Specification of parsing and printing ----------

  /** The text without its hyphens. */
  function Strip(s: string): string {
    if s == "" then ""
    else Strip(s[..|s| - 1]) + if s[|s| - 1] == '-' then "" else [s[|s| - 1]]
  }

  /** What counts as a UUID text: exactly 32 hexadecimal digits, with hyphens anywhere. */
  predicate IsUuidText(s: string) {
    |Strip(s)| == 32 && AllHex(Strip(s))
  }

  function ParseUuid(s: string): Option<CompactId> {
    if IsUuidText(s) then Some(Pack(Strip(s))) else None
  }

  predicate IsHyphenPosition(i: int) {
    i == 8 || i == 13 || i == 18 || i == 23
  }

  /** How many hyphens stand before position `i` of a canonical text. */
  function HyphensBefore(i: int): int {
    if i <= 8 then 0 else if i <= 13 then 1 else if i <= 18 then 2 else if i <= 23 then 3 else 4
  }

  /** The canonical text of section 4 of RFC 9562: the 32 digits, in groups of 8-4-4-4-12. */
  function Canonical(id: CompactId): (s: string)
    ensures |s| == 36
  {
    seq(36, i requires 0 <= i < 36 => if IsHyphenPosition(i) then '-' else Hex(id)[i - HyphensBefore(i)])
  }

  predicate IsCanonical(s: string) {
    && |s| == 36
    && forall i :: 0 <= i < 36 ==> if IsHyphenPosition(i) then s[i] == '-' else IsLowerHex(s[i])
  }

  // ---------- The code ----------

  /** The buffer holds the bytes of the digits so far; the last of an odd number of them waits as the high nibble. */
  ghost predicate Holds(bytes: seq<Byte>, digits: string, highNibble: int) {
    && AllHex(digits) && |digits| <= 33 && |bytes| == ID_LEN
    && bytes[..|digits| / 2] == Pack(digits)
    && 0 <= highNibble < 16
    && (|digits| % 2 == 1 ==> highNibble == Nibble(digits[|digits| - 1]))
  }

  lemma HoldsHighNibble(bytes: seq<Byte>, digits: string, highNibble: int, c: char)
    requires Holds(bytes, digits, highNibble) && IsHex(c) && |digits| % 2 == 0
    ensures Holds(bytes, digits + [c], Nibble(c))
  {
    PackNext(digits, c);
  }

  lemma HoldsLowNibble(bytes: seq<Byte>, digits: string, highNibble: int, c: char)
    requires Holds(bytes, digits, highNibble) && IsHex(c) && |digits| % 2 == 1 && |digits| / 2 < ID_LEN
    ensures Holds(bytes[|digits| / 2 := 16 * highNibble + Nibble(c)], digits + [c], highNibble)
  {
    PackNext(digits, c);
    var k, b := |digits| / 2, 16 * highNibble + Nibble(c);
    assert bytes[k := b][..k + 1] == bytes[..k] + [b];
  }

  /** `parse_uuid_compact_bytes`; the caller's buffer is written in place. */
  method ParseUuidCompactBytes(raw: string, output: array<Byte>) returns (ok: bool)
    requires output.Length == ID_LEN
    modifies output
    ensures ok <==> IsUuidText(raw)
    ensures ok ==> ParseUuid(raw) == Some(output[..])
  {
    var nibbleIndex := 0;
    var highNibble := 0;
    ghost var digits := "";
    for i := 0 to |raw|
      invariant digits == Strip(raw[..i]) && nibbleIndex == |digits|
      invariant Holds(output[..], digits, highNibble)
    {
      var byte := raw[i];
      StripNext(raw, i);
      if byte == '-' {
        continue;
      }
      if !IsHex(byte) {
        BadDigit(raw, i);
        return false;
      }
      var nibble := Nibble(byte);
      if nibbleIndex % 2 == 0 {
        HoldsHighNibble(output[..], digits, highNibble, byte);
        highNibble := nibble;
      } else {
        var outIndex := nibbleIndex / 2;
        if outIndex >= output.Length {
          BadPrefix(raw, i + 1);
          return false;
        }
        HoldsLowNibble(output[..], digits, highNibble, byte);
        output[outIndex] := 16 * highNibble + nibble;
      }
      nibbleIndex := nibbleIndex + 1;
      digits := digits + [byte];
    }
    assert raw[..|raw|] == raw;
    if nibbleIndex != 32 {
      return false;
    }
    assert output[..] == output[..16];
    return true;
  }

  /** The bytes that a hyphen precedes. */
  predicate StartsGroup(index: int) {
    index == 4 || index == 6 || index == 8 || index == 10
  }

  /** How much of the canonical text the first `n` bytes account for. */
  function PrintedLength(n: nat): nat {
    2 * n + if n <= 4 then 0 else if n <= 6 then 1 else if n <= 8 then 2 else if n <= 10 then 3 else 4
  }

  /** Where byte `index` is printed: after a hyphen if it starts a group, then its two digits. */
  lemma PrintedDigits(id: CompactId, index: nat)
    requires index < 16
    ensures PrintedLength(index + 1) == PrintedLength(index) + if StartsGroup(index) then 3 else 2
    ensures PrintedLength(index + 1) <= 36
    ensures Canonical(id)[PrintedLength(index + 1) - 2] == HexDigit(id[index] / 16)
    ensures Canonical(id)[PrintedLength(index + 1) - 1] == HexDigit(id[index] % 16)
    ensures StartsGroup(index) ==> Canonical(id)[PrintedLength(index)] == '-'
  {
    var p := PrintedLength(index + 1);
    assert !IsHyphenPosition(p - 2) && p - 2 - HyphensBefore(p - 2) == 2 * index;
    assert !IsHyphenPosition(p - 1) && p - 1 - HyphensBefore(p - 1) == 2 * index + 1;
  }

  lemma PrefixStep(s: string, n: nat)
    requires n < |s|
    ensures s[..n + 1] == s[..n] + [s[n]]
  {
  }

  /** One iteration of a printing loop. */
  lemma PrintedStep(id: CompactId, index: nat)
    requires index < 16
    ensures PrintedLength(index) <= PrintedLength(index + 1) <= 36
    ensures Canonical(id)[..PrintedLength(index + 1)]
         == Canonical(id)[..PrintedLength(index)] + (if StartsGroup(index) then "-" else "")
            + [HexDigit(id[index] / 16)] + [HexDigit(id[index] % 16)]
  {
    PrintedDigits(id, index);
    var s, n := Canonical(id), PrintedLength(index);
    PrefixStep(s, n);
    PrefixStep(s, n + 1);
    if StartsGroup(index) {
      PrefixStep(s, n + 2);
    } else {
      assert s[..n] + "" == s[..n];
    }
  }

  /** `expand_command_id` of src/polling.rs. */
  method ExpandCommandId(id: CompactId) returns (output: string)
    ensures output == Canonical(id)
  {
    output := "";
    for index := 0 to ID_LEN
      invariant output == Canonical(id)[..PrintedLength(index)]
    {
      PrintedStep(id, index);
      if StartsGroup(index) {
        output := output + "-";
      }
      output := output + [HexDigit(id[index] / 16)];
      output := output + [HexDigit(id[index] % 16)];
    }
  }

  /** `command_id_label` of src/ble.rs. */
  method CommandIdLabel(id: CompactId) returns (text: string)
    ensures text == Canonical(id)
  {
    text := "";
    var index := 0;
    while index < |id|
      invariant 0 <= index <= |id|
      invariant text == Canonical(id)[..PrintedLength(index)]
    {
      PrintedStep(id, index);
      var byte := id[index];
      if StartsGroup(index) {
        text := text + "-";
      }
      text := text + [HexDigit(byte / 16)];
      text := text + [HexDigit(byte % 16)];
      index := index + 1;
    }
  }

  // ---------- Stripping hyphens ----------

  lemma {:induction false} StripConcat(a: string, b: string)
    ensures Strip(a + b) == Strip(a) + Strip(b)
  {
    if b == "" {
      assert a + b == a;
    } else {
      StripConcat(a, b[..|b| - 1]);
      assert (a + b)[..|a + b| - 1] == a + b[..|b| - 1];
    }
  }

  /** What is seen in a prefix is still there in the whole. */
  lemma StripPrefix(s: string, n: nat)
    requires n <= |s|
    ensures |Strip(s[..n])| <= |Strip(s)|
    ensures forall i :: 0 <= i < |Strip(s[..n])| ==> Strip(s)[i] == Strip(s[..n])[i]
  {
    StripConcat(s[..n], s[n..]);
    assert s[..n] + s[n..] == s;
  }

  lemma StripNext(s: string, i: nat)
    requires i < |s|
    ensures Strip(s[..i + 1]) == Strip(s[..i]) + if s[i] == '-' then "" else [s[i]]
  {
    assert s[..i + 1][..i] == s[..i];
  }

  /** A prefix with a wrong digit, or with too many, spoils the whole text. */
  lemma BadPrefix(s: string, n: nat)
    requires n <= |s| && (!AllHex(Strip(s[..n])) || |Strip(s[..n])| > 32)
    ensures !IsUuidText(s)
  {
    StripPrefix(s, n);
  }

  lemma BadDigit(s: string, i: nat)
    requires i < |s| && s[i] != '-' && !IsHex(s[i])
    ensures !IsUuidText(s)
  {
    StripNext(s, i);
    assert Strip(s[..i + 1])[|Strip(s[..i])|] == s[i];
    BadPrefix(s, i + 1);
  }

  /** Stripping a canonical text leaves its digits, in order. */
  lemma {:induction false} StripCanonical(s: string, n: nat)
    requires IsCanonical(s) && n <= 36
    ensures |Strip(s[..n])| == n - HyphensBefore(n)
    ensures forall i :: 0 <= i < n && !IsHyphenPosition(i) ==> Strip(s[..n])[i - HyphensBefore(i)] == s[i]
  {
    if n != 0 {
      StripCanonical(s, n - 1);
      assert s[..n][..n - 1] == s[..n - 1];
    }
  }

  // ---------- Digits and bytes ----------

  lemma NibbleOfHexDigit(n: int)
    requires 0 <= n < 16
    ensures IsLowerHex(HexDigit(n)) && Nibble(HexDigit(n)) == n
  {
  }

  lemma HexDigitOfNibble(c: char)
    requires IsHex(c)
    ensures HexDigit(Nibble(c)) == Lower(c)
  {
  }

  lemma PackHex(bytes: seq<Byte>)
    ensures forall i :: 0 <= i < |Hex(bytes)| ==> IsLowerHex(Hex(bytes)[i])
    ensures AllHex(Hex(bytes)) && Pack(Hex(bytes)) == bytes
  {
    var digits := Hex(bytes);
    forall i | 0 <= i < |digits|
      ensures IsLowerHex(digits[i])
    {
      NibbleOfHexDigit(if i % 2 == 0 then bytes[i / 2] / 16 else bytes[i / 2] % 16);
    }
    forall i | 0 <= i < |bytes|
      ensures Pack(digits)[i] == bytes[i]
    {
      assert digits[2 * i] == HexDigit(bytes[i] / 16) && digits[2 * i + 1] == HexDigit(bytes[i] % 16);
      NibbleOfHexDigit(bytes[i] / 16);
      NibbleOfHexDigit(bytes[i] % 16);
    }
  }

  lemma HexPack(digits: string)
    requires AllHex(digits) && |digits| % 2 == 0
    ensures Hex(Pack(digits)) == LowerAll(digits)
  {
    forall i | 0 <= i < |digits|
      ensures Hex(Pack(digits))[i] == LowerAll(digits)[i]
    {
      HexDigitOfNibble(digits[i]);
      var high, low := Nibble(digits[2 * (i / 2)]), Nibble(digits[2 * (i / 2) + 1]);
      assert Pack(digits)[i / 2] == 16 * high + low;
      assert (16 * high + low) / 16 == high && (16 * high + low) % 16 == low;
    }
  }

  // ---------- Main results ----------

  lemma CanonicalIsCanonical(id: CompactId)
    ensures IsCanonical(Canonical(id))
  {
    PackHex(id);
  }

  lemma CanonicalStrips(id: CompactId)
    ensures Strip(Canonical(id)) == Hex(id)
  {
    CanonicalIsCanonical(id);
    var s := Canonical(id);
    StripCanonical(s, 36);
    assert s[..36] == s;
    forall j | 0 <= j < 32
      ensures Strip(s)[j] == Hex(id)[j]
    {
      var i := if j < 8 then j else if j < 12 then j + 1 else if j < 16 then j + 2 else if j < 20 then j + 3 else j + 4;
      assert !IsHyphenPosition(i) && i - HyphensBefore(i) == j;
    }
  }

  /** Printing then parsing gives back the 16 bytes. */
  lemma ParseOfCanonical(id: CompactId)
    ensures ParseUuid(Canonical(id)) == Some(id)
  {
    CanonicalStrips(id);
    PackHex(id);
  }

  /** Printing is injective: two identifiers with one text are one identifier. */
  lemma CanonicalInjective(a: CompactId, b: CompactId)
    requires Canonical(a) == Canonical(b)
    ensures a == b
  {
    ParseOfCanonical(a);
    ParseOfCanonical(b);
  }

  /** Parsing then printing lowercases the digits and puts the hyphens in their places. */
  lemma CanonicalOfParse(s: string)
    requires IsUuidText(s)
    ensures IsCanonical(Canonical(ParseUuid(s).value))
    ensures Strip(Canonical(ParseUuid(s).value)) == LowerAll(Strip(s))
  {
    CanonicalIsCanonical(ParseUuid(s).value);
    CanonicalStrips(ParseUuid(s).value);
    HexPack(Strip(s));
  }

  /** The round trip through 16 bytes is exact for the canonical texts and for no others. */
  lemma PrintedParseIsIdentityExactlyOnCanonical(s: string)
    requires IsUuidText(s)
    ensures Canonical(ParseUuid(s).value) == s <==> IsCanonical(s)
  {
    var id := ParseUuid(s).value;
    CanonicalIsCanonical(id);
    if IsCanonical(s) {
      HexPack(Strip(s));
      StripCanonical(s, 36);
      assert s[..36] == s;
      forall i | 0 <= i < 36
        ensures Canonical(id)[i] == s[i]
      {
        if !IsHyphenPosition(i) {
          assert Hex(id)[i - HyphensBefore(i)] == LowerAll(Strip(s))[i - HyphensBefore(i)] == Lower(s[i]);
        }
      }
    }
  }

  // ---------- Spelled out ----------

  /** Two digits for each byte, the high one first. */
  lemma HexSpelled(bytes: seq<Byte>, i: nat)
    requires i < |bytes|
    ensures Hex(bytes)[2 * i] == "0123456789abcdef"[bytes[i] / 16]
    ensures Hex(bytes)[2 * i + 1] == "0123456789abcdef"[bytes[i] % 16]
  {
    HexAlphabet(bytes[i] / 16);
    HexAlphabet(bytes[i] % 16);
    assert 2 * i / 2 == i && (2 * i + 1) / 2 == i;
  }

  /** The digits in groups of 8-4-4-4-12. */
  lemma CanonicalSpelled(id: CompactId)
    ensures var s, digits := Canonical(id), Hex(id);
      && s[..8] == digits[..8] && s[8] == '-'
      && s[9..13] == digits[8..12] && s[13] == '-'
      && s[14..18] == digits[12..16] && s[18] == '-'
      && s[19..23] == digits[16..20] && s[23] == '-'
      && s[24..] == digits[20..]
  {
  }

  lemma {:induction false} StripLower(s: string)
    ensures Strip(LowerAll(s)) == LowerAll(Strip(s))
  {
    if s != "" {
      var front, c := s[..|s| - 1], s[|s| - 1];
      StripLower(front);
      assert LowerAll(s)[..|s| - 1] == LowerAll(front);
      assert LowerAll(s)[|s| - 1] == Lower(c);
    }
  }

  lemma LowerIsSameDigit(c: char)
    ensures IsHex(Lower(c)) <==> IsHex(c)
    ensures IsHex(c) ==> Nibble(Lower(c)) == Nibble(c)
  {
  }

  /** Letter case does not matter to the parser. */
  lemma ParseIgnoresCase(s: string)
    ensures ParseUuid(LowerAll(s)) == ParseUuid(s)
  {
    var digits, lower := Strip(s), LowerAll(Strip(s));
    StripLower(s);
    forall i | 0 <= i < |digits|
      ensures IsHex(lower[i]) <==> IsHex(digits[i])
      ensures IsHex(digits[i]) ==> Nibble(lower[i]) == Nibble(digits[i])
    {
      LowerIsSameDigit(digits[i]);
    }
    if IsUuidText(s) {
      assert Pack(lower) == Pack(digits);
    }
  }

  /** A hexadecimal digit, in either case, or a hyphen. */
  predicate DigitOrHyphen(c: char) {
    c == '-' || '0' <= c <= '9' || 'a' <= c <= 'f' || 'A' <= c <= 'F'
  }

  lemma {:induction false} StripCounts(s: string)
    ensures |Strip(s)| == |s| - multiset(s)['-']
  {
    if s != "" {
      StripCounts(s[..|s| - 1]);
      assert s == s[..|s| - 1] + [s[|s| - 1]];
    }
  }

  lemma AllHexSnoc(digits: string, c: char)
    ensures AllHex(digits + [c]) <==> AllHex(digits) && IsHex(c)
  {
    assert (digits + [c])[|digits|] == c;
    assert forall i :: 0 <= i < |digits| ==> (digits + [c])[i] == digits[i];
  }

  ghost predicate AllDigitsOrHyphens(s: string) {
    forall i :: 0 <= i < |s| ==> DigitOrHyphen(s[i])
  }

  lemma {:induction false} StripIsAllHex(s: string)
    ensures AllHex(Strip(s)) <==> AllDigitsOrHyphens(s)
  {
    if s != "" {
      var front, c := s[..|s| - 1], s[|s| - 1];
      StripIsAllHex(front);
      AllHexSnoc(Strip(front), c);
      assert Strip(s) == if c == '-' then Strip(front) else Strip(front) + [c];
      assert AllDigitsOrHyphens(s) <==> AllDigitsOrHyphens(front) && DigitOrHyphen(c);
    }
  }

  /** What parses are exactly the texts of digits and hyphens, of which 32 are digits, wherever the hyphens stand. */
  lemma UuidTextExactly(s: string)
    ensures ParseUuid(s).Some? <==> AllDigitsOrHyphens(s) && |s| - multiset(s)['-'] == 32
  {
    StripCounts(s);
    StripIsAllHex(s);
  }
}
