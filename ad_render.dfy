/** How `parse_elements` prints one Advertising Data structure: a label
    for the type code, then the value, as raw characters for the two
    local-name types and as upper-case hexadecimal for every other type.
    Colour escapes are not part of the model. */
module AdRender {
  import opened Bytes

  /** One Advertising Data structure: its type code and its value octets. */
  datatype Field = Field(code: uint8, value: seq<uint8>)

  /** The labels the type-code switch prints for the codes it knows. */
  function KnownLabel(code: uint8): Option<string>
  {
    match code
    case 0x01 => Some("<FLAGS>")
    case 0x02 => Some("<UUID16_SOME>")
    case 0x03 => Some("<UUID16_ALL>")
    case 0x04 => Some("<EIR_UUID32_SOME>")
    case 0x05 => Some("<EIR_UUID32_ALL>")
    case 0x06 => Some("<EIR_UUID128_SOME>")
    case 0x07 => Some("<EIR_UUID128_ALL>")
    case 0x08 => Some("<NAME_SHORT>")
    case 0x09 => Some("<NAME_COMPLETE>")
    case 0x0A => Some("<TX_POWER>")
    case 0x10 => Some("<DEVICE_ID>")
    case 0x16 => Some("<SERVICE_DATA_UUID16>")
    case 0x19 => Some("<APPEARANCE>")
    case 0x20 => Some("<SERVICE_DATA_UUID32>")
    case 0x21 => Some("<SERVICE_DATA_UUID128>")
    case 0xFF => Some("<MANUFACTURER_SPECIFIC_DATA>")
    case _ => None
  }

  /** The label printed before a field: the switch's label for a known
      code, otherwise `<%.2X>` of the code. */
  function TypeLabel(code: uint8): (lbl: string)
    ensures 4 <= |lbl| && lbl[0] == '<' && lbl[|lbl| - 1] == '>'
    ensures KnownLabel(code).None? <==> |lbl| == 4
    ensures KnownLabel(code).None? ==> lbl[1..3] == HexByte(code)
  {
    match KnownLabel(code)
    case Some(known) => known
    case None => "<" + HexByte(code) + ">"
  }

  /** Reverse lookup in the switch's label table. */
  function CodeOfLabel(lbl: string): Option<uint8>
  {
    if lbl == "<FLAGS>" then Some(0x01)
    else if lbl == "<UUID16_SOME>" then Some(0x02)
    else if lbl == "<UUID16_ALL>" then Some(0x03)
    else if lbl == "<EIR_UUID32_SOME>" then Some(0x04)
    else if lbl == "<EIR_UUID32_ALL>" then Some(0x05)
    else if lbl == "<EIR_UUID128_SOME>" then Some(0x06)
    else if lbl == "<EIR_UUID128_ALL>" then Some(0x07)
    else if lbl == "<NAME_SHORT>" then Some(0x08)
    else if lbl == "<NAME_COMPLETE>" then Some(0x09)
    else if lbl == "<TX_POWER>" then Some(0x0A)
    else if lbl == "<DEVICE_ID>" then Some(0x10)
    else if lbl == "<SERVICE_DATA_UUID16>" then Some(0x16)
    else if lbl == "<APPEARANCE>" then Some(0x19)
    else if lbl == "<SERVICE_DATA_UUID32>" then Some(0x20)
    else if lbl == "<SERVICE_DATA_UUID128>" then Some(0x21)
    else if lbl == "<MANUFACTURER_SPECIFIC_DATA>" then Some(0xFF)
    else None
  }

  /** Reads a printed label back to the type code it stands for. */
  function ParseLabel(lbl: string): Option<uint8>
  {
    if |lbl| == 4 && lbl[0] == '<' && lbl[3] == '>' && IsHexDigit(lbl[1]) && IsHexDigit(lbl[2])
    then Some(UnhexByte(lbl[1], lbl[2]))
    else CodeOfLabel(lbl)
  }

  lemma KnownLabelRoundTrip(code: uint8)
    requires KnownLabel(code).Some?
    ensures |KnownLabel(code).value| != 4
    ensures CodeOfLabel(KnownLabel(code).value) == Some(code)
  {
    if code <= 0x08 {
      LowLabelsRoundTrip(code);
    } else {
      HighLabelsRoundTrip(code);
    }
  }

  lemma LowLabelsRoundTrip(code: uint8)
    requires code <= 0x08 && KnownLabel(code).Some?
    ensures |KnownLabel(code).value| != 4 && CodeOfLabel(KnownLabel(code).value) == Some(code)
  {
  }

  lemma HighLabelsRoundTrip(code: uint8)
    requires 0x08 < code && KnownLabel(code).Some?
    ensures |KnownLabel(code).value| != 4 && CodeOfLabel(KnownLabel(code).value) == Some(code)
  {
  }

  /** The label identifies the type code: reading it back gives the code,
      so no two codes share a label, and the hexadecimal fallback never
      collides with a named label. */
  lemma LabelRoundTrip(code: uint8)
    ensures ParseLabel(TypeLabel(code)) == Some(code)
  {
    if KnownLabel(code).Some? {
      KnownLabelRoundTrip(code);
    } else {
      HexByteRoundTrip(code);
    }
  }

  lemma LabelInjective(a: uint8, b: uint8)
    requires TypeLabel(a) == TypeLabel(b)
    ensures a == b
  {
    LabelRoundTrip(a);
    LabelRoundTrip(b);
  }

  /** The two local-name types are printed as characters. */
  predicate IsName(code: uint8) {
    code == 0x08 || code == 0x09
  }

  /** The value as printed: verbatim characters for a name, otherwise
      `%.2X` per octet with no separator. */
  function RenderValue(code: uint8, value: seq<uint8>): (text: string)
    ensures IsName(code) ==> |text| == |value|
    ensures !IsName(code) ==> |text| == 2 * |value|
  {
    if IsName(code) then Chars(value) else HexBytes(value)
  }

  /** The per-octet printing loop of `parse_elements`. */
  method RenderValueLoop(code: uint8, value: seq<uint8>) returns (text: string)
    ensures text == RenderValue(code, value)
  {
    text := "";
    for i := 0 to |value|
      invariant text == RenderValue(code, value[..i])
    {
      assert value[..i + 1][..i] == value[..i];
      if IsName(code) {
        text := text + [value[i] as int as char];
      } else {
        text := text + HexByte(value[i]);
      }
    }
    assert value[..|value|] == value;
  }

  /** Names are printed unsanitised (every octet value, control codes
      included, becomes the character with that code); other values are
      printed so that the octets can be read back in order. */
  lemma RenderValueFaithful(code: uint8, value: seq<uint8>)
    ensures IsName(code) ==> forall i :: 0 <= i < |value| ==> RenderValue(code, value)[i] as int == value[i] as int
    ensures !IsName(code) ==> UnhexBytes(RenderValue(code, value)) == Some(value)
  {
    if IsName(code) {
      CharsVerbatim(value);
    } else {
      HexBytesRoundTrip(value);
    }
  }

  function RenderField(f: Field): string
  {
    TypeLabel(f.code) + RenderValue(f.code, f.value)
  }

  /** The text printed for a run of fields, one after another. */
  function RenderAll(fs: seq<Field>): string
  {
    if fs == [] then "" else RenderAll(fs[..|fs| - 1]) + RenderField(fs[|fs| - 1])
  }

  /** `pieces[i]` is the text printed for `fs[i]`. */
  predicate Shown(pieces: seq<string>, fs: seq<Field>)
  {
    |pieces| == |fs| &&
    forall i {:trigger RenderField(fs[i])} :: 0 <= i < |fs| ==> pieces[i] == RenderField(fs[i])
  }

  lemma ShownAppend(pieces: seq<string>, fs: seq<Field>, piece: string, f: Field)
    requires Shown(pieces, fs) && piece == RenderField(f)
    ensures Shown(pieces + [piece], fs + [f])
  {
    forall i | 0 <= i < |fs| + 1
      ensures (pieces + [piece])[i] == RenderField((fs + [f])[i])
    {
      if i < |fs| {
        assert (fs + [f])[i] == fs[i];
        assert pieces[i] == RenderField(fs[i]);
      }
    }
  }

  /** `parse_elements` printing one field: the label, then the value. */
  method PrintField(code: uint8, value: seq<uint8>) returns (text: string)
    ensures Shown([text], [Field(code, value)])
  {
    var rendered := RenderValueLoop(code, value);
    text := TypeLabel(code) + rendered;
    assert [Field(code, value)][0] == Field(code, value);
    assert [text][0] == RenderField([Field(code, value)][0]);
  }

  /** The pieces printed one after another for fields related by `Shown`
      are the text of the whole run. */
  lemma {:induction false} ShownJoin(pieces: seq<string>, fs: seq<Field>)
    requires Shown(pieces, fs)
    ensures Join(pieces) == RenderAll(fs)
  {
    if fs != [] {
      var n := |fs| - 1;
      assert Shown(pieces[..n], fs[..n]) by {
        forall i | 0 <= i < n
          ensures pieces[..n][i] == RenderField(fs[..n][i])
        {
          assert fs[..n][i] == fs[i];
          assert pieces[i] == RenderField(fs[i]);
        }
      }
      ShownJoin(pieces[..n], fs[..n]);
      assert pieces[n] == RenderField(fs[n]);
    }
  }

  /** Rendering is compositional: a field's text follows the text of the
      fields before it. */
  lemma RenderAllAppend(fs: seq<Field>, f: Field)
    ensures RenderAll(fs + [f]) == RenderAll(fs) + RenderField(f)
  {
    assert (fs + [f])[..|fs|] == fs;
  }

  /** A complete local name "Foo" prints as the text Foo. */
  lemma NameExample()
    ensures RenderField(Field(0x09, [0x46, 0x6F, 0x6F])) == "<NAME_COMPLETE>Foo"
  {
    var v: seq<uint8> := [0x46, 0x6F, 0x6F];
    assert v[..2] == [0x46, 0x6F] && v[..2][..1] == [0x46] && v[..2][..1][..0] == [];
    assert Chars(v) == "Foo";
  }

  /** Manufacturer data 01 02 prints as 0102. */
  lemma HexExample()
    ensures RenderField(Field(0xFF, [0x01, 0x02])) == "<MANUFACTURER_SPECIFIC_DATA>" + "0102"
  {
    var v: seq<uint8> := [0x01, 0x02];
    assert v[..1] == [0x01] && v[..1][..0] == [];
    assert HexBytes(v) == "0102";
  }

  /** A code the switch does not know prints as its two hexadecimal digits. */
  lemma UnknownCodeExample()
    ensures TypeLabel(0x42) == "<42>" && TypeLabel(0xAB) == "<AB>"
  {
  }

  /** Flags 06 print as <FLAGS>06. */
  lemma FlagsExample()
    ensures RenderField(Field(0x01, [0x06])) == "<FLAGS>" + "06"
  {
    var v: seq<uint8> := [0x06];
    assert v[..0] == [];
    assert HexBytes(v) == "06";
  }

  /** Manufacturer data 4C 00 02 print as <MANUFACTURER_SPECIFIC_DATA>4C0002. */
  lemma MakerExample()
    ensures RenderField(Field(0xFF, [0x4C, 0x00, 0x02])) == "<MANUFACTURER_SPECIFIC_DATA>" + "4C0002"
  {
    var v: seq<uint8> := [0x4C, 0x00, 0x02];
    assert v[..2] == [0x4C, 0x00] && v[..2][..1] == [0x4C] && v[..2][..1][..0] == [];
    assert HexBytes(v) == "4C0002";
  }

  /** Two fields print one after the other, with nothing between them. */
  lemma RenderTwo(a: Field, b: Field)
    ensures RenderAll([a, b]) == RenderField(a) + RenderField(b)
  {
    assert [a, b][..1] == [a] && [a][..0] == [];
    calc {
      RenderAll([a, b]);
      == RenderAll([a]) + RenderField(b);
      == (RenderAll([]) + RenderField(a)) + RenderField(b);
      == { assert RenderAll([]) + RenderField(a) == RenderField(a); }
      RenderField(a) + RenderField(b);
    }
  }

  /** Flags 06 followed by manufacturer data 4C 00 02 print one after the
      other, with nothing between them. */
  lemma ScenarioText()
    ensures RenderAll([Field(0x01, [0x06]), Field(0xFF, [0x4C, 0x00, 0x02])]) ==
            ("<FLAGS>" + "06") + ("<MANUFACTURER_SPECIFIC_DATA>" + "4C0002")
  {
    RenderTwo(Field(0x01, [0x06]), Field(0xFF, [0x4C, 0x00, 0x02]));
    FlagsExample();
    MakerExample();
  }
}
