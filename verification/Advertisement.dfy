/**
  The manufacturer data that probes advertise (src/ble.rs), with its three markers.
  A name is the sequence of its UTF-8 bytes.
 */
module Advertisement {
  import opened Machine
  import opened Wrappers

  type Text = seq<Byte>

  const COMPANY_ID := 0x1234
  const MAGIC_MARKER: Text := [0x48, 0x48, 0x2D, 0x50, 0x52, 0x4F, 0x42, 0x45]   // HH-PROBE
  const SETUP_MARKER: Text := [0x48, 0x48, 0x2D, 0x53, 0x45, 0x54, 0x55, 0x50]   // HH-SETUP
  const LEGACY_TEST_MARKER: Text := [0x54, 0x45, 0x53, 0x54]                     // TEST
  const SETUP_PROBE_NAME: Text := MAGIC_MARKER + [0x2D, 0x53, 0x45, 0x54, 0x55, 0x50] // HH-PROBE-SETUP
  const NORMAL_PROBE_NAME: Text := MAGIC_MARKER + [0x2D, 0x41]                   // HH-PROBE-A

  datatype ProbeMode = Normal | Setup

  datatype ProbeMeta = ProbeMeta(versionMajor: Byte, versionMinor: Byte, name: Text, mode: ProbeMode)

  /** `default_probe_name_for_mode`. */
  function DefaultName(mode: ProbeMode): Text {
    match mode
    case Normal => NORMAL_PROBE_NAME
    case Setup => SETUP_PROBE_NAME
  }

  /** `matching_marker`: the length and the mode of the marker found. */
  function MatchingMarker(payload: Text): Option<(nat, ProbeMode)> {
    if MAGIC_MARKER <= payload && |payload| >= |MAGIC_MARKER| + 2 then Some((|MAGIC_MARKER|, Normal))
    else if SETUP_MARKER <= payload && |payload| >= |SETUP_MARKER| + 2 then Some((|SETUP_MARKER|, Setup))
    else if LEGACY_TEST_MARKER <= payload && |payload| >= |LEGACY_TEST_MARKER| + 2 then
      Some((|LEGACY_TEST_MARKER|, Normal))
    else None
  }

  /** `parse_probe_meta`. Its indexing is in bounds for every payload. */
  function ParseProbeMeta(companyId: int, payload: Text, advertisedName: Option<Text>): Option<ProbeMeta> {
    if companyId != COMPANY_ID then None
    else
      match MatchingMarker(payload)
      case None => None
      case Some((base, markerMode)) =>
        if |payload| == base + 2 then
          var name := if advertisedName.Some? then advertisedName.value else DefaultName(markerMode);
          Some(ProbeMeta(payload[base], payload[base + 1], name,
                         if name == SETUP_PROBE_NAME then Setup else markerMode))
        else
          var nameStart, nameEnd := base + 3, base + 3 + payload[base + 2];
          if |payload| < nameEnd then None
          else
            var name := payload[nameStart..nameEnd];
            Some(ProbeMeta(payload[base], payload[base + 1], name,
                           if markerMode == Setup || name == SETUP_PROBE_NAME then Setup else Normal))
  }

  /** `parse_probe_meta_from_name`. */
  function ParseProbeMetaFromName(advertisedName: Option<Text>): Option<ProbeMeta> {
    if advertisedName == Some(SETUP_PROBE_NAME) then Some(ProbeMeta(0, 0, SETUP_PROBE_NAME, Setup))
    else if advertisedName == Some(NORMAL_PROBE_NAME) then Some(ProbeMeta(0, 0, NORMAL_PROBE_NAME, Normal))
    else None
  }

  // ---------- What the parser accepts ----------

  /** The bytes of an ASCII text. */
  function Ascii(s: string): Text {
    seq(|s|, i requires 0 <= i < |s| => s[i] as int % 256)
  }

  lemma MarkersSpelled()
    ensures MAGIC_MARKER == Ascii("HH-PROBE") && SETUP_MARKER == Ascii("HH-SETUP")
    ensures LEGACY_TEST_MARKER == Ascii("TEST")
  {
  }

  lemma NamesSpelled()
    ensures SETUP_PROBE_NAME == Ascii("HH-PROBE-SETUP") && NORMAL_PROBE_NAME == Ascii("HH-PROBE-A")
  {
    assert |SETUP_PROBE_NAME| == 14 && |NORMAL_PROBE_NAME| == 10;
  }

  datatype Marker = Marker(bytes: Text, mode: ProbeMode)

  const MAGIC := Marker(MAGIC_MARKER, Normal)
  const SETUP := Marker(SETUP_MARKER, Setup)
  const LEGACY := Marker(LEGACY_TEST_MARKER, Normal)

  predicate IsMarker(m: Marker) {
    m == MAGIC || m == SETUP || m == LEGACY
  }

  /** The full form; the trailing bytes are ignored. */
  function FullForm(m: Marker, major: Byte, minor: Byte, name: Text, trailing: Text): Text
    requires |name| <= 255
  {
    m.bytes + [major, minor, |name|] + name + trailing
  }

  function ShortForm(m: Marker, major: Byte, minor: Byte): Text {
    m.bytes + [major, minor]
  }

  predicate Marked(m: Marker, payload: Text) {
    m.bytes <= payload && |payload| >= |m.bytes| + 2
  }

  /** At most one marker fits a payload. */
  lemma MarkersExclude(a: Marker, b: Marker, payload: Text)
    requires IsMarker(a) && IsMarker(b) && Marked(a, payload) && Marked(b, payload)
    ensures a == b
  {
    assert payload[0] == a.bytes[0] == b.bytes[0];
    assert payload[3] == a.bytes[3] == b.bytes[3];
  }

  /** Trying the markers in some other order. */
  function FirstMarked(order: seq<Marker>, payload: Text): Option<Marker> {
    if order == [] then None
    else if Marked(order[0], payload) then Some(order[0])
    else FirstMarked(order[1..], payload)
  }

  lemma {:induction false} FirstMarkedFinds(order: seq<Marker>, payload: Text, m: Marker)
    requires forall i :: 0 <= i < |order| ==> IsMarker(order[i])
    ensures FirstMarked(order, payload) == Some(m) <==> m in order && Marked(m, payload)
    decreases |order|
  {
    if order != [] {
      FirstMarkedFinds(order[1..], payload, m);
      if Marked(order[0], payload) && Marked(m, payload) && m in order {
        MarkersExclude(order[0], m, payload);
      }
      if m in order {
        assert m == order[0] || m in order[1..];
      }
    }
  }

  /** The order in which the three markers are tried does not matter. */
  lemma MarkerOrderIrrelevant(order: seq<Marker>, payload: Text)
    requires MAGIC in order && SETUP in order && LEGACY in order
    requires forall i :: 0 <= i < |order| ==> IsMarker(order[i])
    ensures MatchingMarker(payload)
         == match FirstMarked(order, payload) case None => None case Some(m) => Some((|m.bytes|, m.mode))
  {
    FirstMarkedFinds(order, payload, MAGIC);
    FirstMarkedFinds(order, payload, SETUP);
    FirstMarkedFinds(order, payload, LEGACY);
    if FirstMarked(order, payload).Some? {
      FirstMarkedFinds(order, payload, FirstMarked(order, payload).value);
    }
  }

  lemma MarkerFound(m: Marker, payload: Text)
    requires IsMarker(m) && Marked(m, payload)
    ensures MatchingMarker(payload) == Some((|m.bytes|, m.mode))
  {
    if Marked(MAGIC, payload) {
      MarkersExclude(m, MAGIC, payload);
    }
    if Marked(SETUP, payload) {
      MarkersExclude(m, SETUP, payload);
    }
    if Marked(LEGACY, payload) {
      MarkersExclude(m, LEGACY, payload);
    }
  }

  /** Parsing inverts the full form, for every name that its length byte can describe. */
  lemma FullFormRoundTrip(m: Marker, major: Byte, minor: Byte, name: Text, trailing: Text, advertisedName: Option<Text>)
    requires IsMarker(m) && |name| <= 255
    ensures ParseProbeMeta(0x1234, FullForm(m, major, minor, name, trailing), advertisedName)
         == Some(ProbeMeta(major, minor, name, if m == SETUP || name == Ascii("HH-PROBE-SETUP") then Setup else Normal))
  {
    NamesSpelled();
    var payload, base := FullForm(m, major, minor, name, trailing), |m.bytes|;
    assert payload[..base] == m.bytes;
    MarkerFound(m, payload);
    assert payload[base] == major && payload[base + 1] == minor && payload[base + 2] == |name|;
    assert payload[base + 3..base + 3 + |name|] == name;
  }

  /** Parsing inverts the short form, which takes the advertised name or the marker's default. */
  lemma ShortFormRoundTrip(m: Marker, major: Byte, minor: Byte, advertisedName: Option<Text>)
    requires IsMarker(m)
    ensures
      var name := if advertisedName.Some? then advertisedName.value
                  else if m == SETUP then Ascii("HH-PROBE-SETUP")
                  else Ascii("HH-PROBE-A");
      ParseProbeMeta(0x1234, ShortForm(m, major, minor), advertisedName)
      == Some(ProbeMeta(major, minor, name, if m == SETUP || name == Ascii("HH-PROBE-SETUP") then Setup else Normal))
  {
    NamesSpelled();
    var payload := ShortForm(m, major, minor);
    assert payload[..|m.bytes|] == m.bytes;
    MarkerFound(m, payload);
    assert NORMAL_PROBE_NAME[9] != SETUP_PROBE_NAME[9];
  }

  /** A long payload splits into the full form's fields. */
  lemma SplitsAsFullForm(m: Marker, payload: Text)
    requires m.bytes <= payload && |payload| >= |m.bytes| + 3 && |payload| >= |m.bytes| + 3 + payload[|m.bytes| + 2]
    ensures var base := |m.bytes|;
      var nameEnd := base + 3 + payload[base + 2];
      payload == FullForm(m, payload[base], payload[base + 1], payload[base + 3..nameEnd], payload[nameEnd..])
  {
    var base := |m.bytes|;
    var nameEnd := base + 3 + payload[base + 2];
    assert payload[base..base + 3] == [payload[base], payload[base + 1], payload[base + 2]];
    assert payload == payload[..base] + payload[base..base + 3] + payload[base + 3..nameEnd] + payload[nameEnd..];
  }

  /** Conversely, whatever parses is one of the two forms. */
  lemma OnlyTheTwoForms(companyId: int, payload: Text, advertisedName: Option<Text>) returns (m: Marker, trailing: Text)
    requires ParseProbeMeta(companyId, payload, advertisedName).Some?
    ensures companyId == 0x1234 && IsMarker(m)
    ensures var meta := ParseProbeMeta(companyId, payload, advertisedName).value;
      || payload == ShortForm(m, meta.versionMajor, meta.versionMinor)
      || (|meta.name| <= 255 && payload == FullForm(m, meta.versionMajor, meta.versionMinor, meta.name, trailing))
  {
    m := if Marked(MAGIC, payload) then MAGIC else if Marked(SETUP, payload) then SETUP else LEGACY;
    assert Marked(m, payload);
    MarkerFound(m, payload);
    var base := |m.bytes|;
    trailing := [];
    if |payload| == base + 2 {
      assert payload == payload[..base] + [payload[base], payload[base + 1]];
    } else {
      SplitsAsFullForm(m, payload);
      trailing := payload[base + 3 + payload[base + 2]..];
    }
  }

  // ---------- What an advertisement is taken for ----------

  datatype ManufacturerData = ManufacturerData(companyId: int, payload: Text)

  /** The manufacturer data first, the name alone otherwise. */
  function MetaFrom(data: Option<ManufacturerData>, name: Option<Text>): Option<ProbeMeta> {
    var fromData := if data.Some? then ParseProbeMeta(data.value.companyId, data.value.payload, name) else None;
    if fromData.Some? then fromData else ParseProbeMetaFromName(name)
  }

  ghost predicate IsFullForm(data: Option<ManufacturerData>) {
    exists m, major, minor, name, trailing ::
      IsMarker(m) && |name| <= 255 && data == Some(ManufacturerData(0x1234, FullForm(m, major, minor, name, trailing)))
  }

  ghost predicate IsShortForm(data: Option<ManufacturerData>) {
    exists m, major, minor :: IsMarker(m) && data == Some(ManufacturerData(0x1234, ShortForm(m, major, minor)))
  }

  /** Data of the full form decide, whatever the advertised name. */
  lemma FullFormIsTakenAtItsWord(m: Marker, major: Byte, minor: Byte, name: Text, trailing: Text,
      advertised: Option<Text>)
    requires IsMarker(m) && |name| <= 255
    ensures MetaFrom(Some(ManufacturerData(0x1234, FullForm(m, major, minor, name, trailing))), advertised)
         == Some(ProbeMeta(major, minor, name, if m == SETUP || name == Ascii("HH-PROBE-SETUP") then Setup else Normal))
  {
    FullFormRoundTrip(m, major, minor, name, trailing, advertised);
  }

  /** Data of the short form decide but for the name, which defaults by marker. */
  lemma ShortFormTakesAdvertisedName(m: Marker, major: Byte, minor: Byte, advertised: Option<Text>)
    requires IsMarker(m)
    ensures
      var name := if advertised.Some? then advertised.value
                  else if m == SETUP then Ascii("HH-PROBE-SETUP")
                  else Ascii("HH-PROBE-A");
      MetaFrom(Some(ManufacturerData(0x1234, ShortForm(m, major, minor))), advertised)
      == Some(ProbeMeta(major, minor, name, if m == SETUP || name == Ascii("HH-PROBE-SETUP") then Setup else Normal))
  {
    ShortFormRoundTrip(m, major, minor, advertised);
  }

  /**
    With any other data, or none, the name alone decides: two names are accepted, as version 0.0, one of
    them as setup.
   */
  lemma NameAloneDecides(data: Option<ManufacturerData>, name: Option<Text>)
    requires !IsFullForm(data) && !IsShortForm(data)
    ensures MetaFrom(data, name) ==
      if name == Some(Ascii("HH-PROBE-SETUP")) then Some(ProbeMeta(0, 0, Ascii("HH-PROBE-SETUP"), Setup))
      else if name == Some(Ascii("HH-PROBE-A")) then Some(ProbeMeta(0, 0, Ascii("HH-PROBE-A"), Normal))
      else None
  {
    NamesSpelled();
    if data.Some? && ParseProbeMeta(data.value.companyId, data.value.payload, name).Some? {
      var m, trailing := OnlyTheTwoForms(data.value.companyId, data.value.payload, name);
      assert false;
    }
  }

  /** The data are the full form of that metadata. */
  predicate AsFullForm(data: Option<ManufacturerData>, meta: ProbeMeta, m: Marker, trailing: Text) {
    && IsMarker(m) && |meta.name| <= 255
    && data == Some(ManufacturerData(0x1234, FullForm(m, meta.versionMajor, meta.versionMinor, meta.name, trailing)))
    && (meta.mode == Setup <==> m == SETUP || meta.name == Ascii("HH-PROBE-SETUP"))
  }

  /** The data are the short form of that metadata, whose name is the advertised or the marker's. */
  predicate AsShortForm(data: Option<ManufacturerData>, name: Option<Text>, meta: ProbeMeta, m: Marker) {
    && IsMarker(m)
    && data == Some(ManufacturerData(0x1234, ShortForm(m, meta.versionMajor, meta.versionMinor)))
    && meta.name == (if name.Some? then name.value
                     else if m == SETUP then Ascii("HH-PROBE-SETUP")
                     else Ascii("HH-PROBE-A"))
    && (meta.mode == Setup <==> m == SETUP || meta.name == Ascii("HH-PROBE-SETUP"))
  }

  /** The data are of neither form, and the name is one of the two names. */
  ghost predicate ByNameAlone(data: Option<ManufacturerData>, name: Option<Text>, meta: ProbeMeta) {
    && !IsFullForm(data) && !IsShortForm(data)
    && name == Some(meta.name) && meta.versionMajor == 0 && meta.versionMinor == 0
    && (meta.name == Ascii("HH-PROBE-SETUP") || meta.name == Ascii("HH-PROBE-A"))
    && (meta.mode == Setup <==> meta.name == Ascii("HH-PROBE-SETUP"))
  }

  /** The advertisement stands for a probe with that metadata. */
  ghost predicate Describes(data: Option<ManufacturerData>, name: Option<Text>, meta: ProbeMeta) {
    || (exists m, trailing :: AsFullForm(data, meta, m, trailing))
    || (exists m :: AsShortForm(data, name, meta, m))
    || ByNameAlone(data, name, meta)
  }

  lemma NamesDiffer()
    ensures Ascii("HH-PROBE-SETUP") != Ascii("HH-PROBE-A")
  {
    assert |Ascii("HH-PROBE-SETUP")| == 14 && |Ascii("HH-PROBE-A")| == 10;
  }

  /** No data are of both forms. */
  lemma FormsDiffer(data: Option<ManufacturerData>)
    ensures !IsFullForm(data) || !IsShortForm(data)
  {
    if IsFullForm(data) && IsShortForm(data) {
      var m, major, minor, name, trailing :|
        && IsMarker(m) && |name| <= 255
        && data == Some(ManufacturerData(0x1234, FullForm(m, major, minor, name, trailing)));
      var m', major', minor' :| IsMarker(m') && data == Some(ManufacturerData(0x1234, ShortForm(m', major', minor')));
      var payload := data.value.payload;
      assert payload[..|m.bytes|] == m.bytes && payload[..|m'.bytes|] == m'.bytes;
      MarkersExclude(m, m', payload);
      assert false;
    }
  }

  lemma DescribedIsTaken(data: Option<ManufacturerData>, name: Option<Text>, meta: ProbeMeta)
    requires Describes(data, name, meta)
    ensures MetaFrom(data, name) == Some(meta)
  {
    if m, trailing :| AsFullForm(data, meta, m, trailing) {
      FullFormIsTakenAtItsWord(m, meta.versionMajor, meta.versionMinor, meta.name, trailing, name);
    } else if m :| AsShortForm(data, name, meta, m) {
      ShortFormTakesAdvertisedName(m, meta.versionMajor, meta.versionMinor, name);
    } else {
      NamesDiffer();
      NameAloneDecides(data, name);
    }
  }

  lemma TakenIsDescribed(data: Option<ManufacturerData>, name: Option<Text>, meta: ProbeMeta)
    requires MetaFrom(data, name) == Some(meta)
    ensures Describes(data, name, meta)
  {
    FormsDiffer(data);
    if IsFullForm(data) {
      var m, major, minor, n, trailing :|
        IsMarker(m) && |n| <= 255 && data == Some(ManufacturerData(0x1234, FullForm(m, major, minor, n, trailing)));
      FullFormIsTakenAtItsWord(m, major, minor, n, trailing, name);
      assert AsFullForm(data, meta, m, trailing);
    } else if IsShortForm(data) {
      var m, major, minor :| IsMarker(m) && data == Some(ManufacturerData(0x1234, ShortForm(m, major, minor)));
      ShortFormTakesAdvertisedName(m, major, minor, name);
      assert AsShortForm(data, name, meta, m);
    } else {
      NamesDiffer();
      NameAloneDecides(data, name);
      assert ByNameAlone(data, name, meta);
    }
  }

  /** The hub takes an advertisement for a probe with that metadata if and only if it describes one. */
  lemma MetaFromExactly(data: Option<ManufacturerData>, name: Option<Text>, meta: ProbeMeta)
    ensures MetaFrom(data, name) == Some(meta) <==> Describes(data, name, meta)
  {
    if Describes(data, name, meta) {
      DescribedIsTaken(data, name, meta);
    } else if MetaFrom(data, name) == Some(meta) {
      TakenIsDescribed(data, name, meta);
    }
  }
}
