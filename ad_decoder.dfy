/** Advertising Data (Bluetooth Core Specification, Volume 3, Part C,
    Section 11): a run of structures, each a length octet L, a type octet
    and L - 1 value octets.  `parse_elements` walks such a run with a cursor.

    The decoder below follows the program as written: it is handed the
    payload length n and a buffer with at least n + 1 readable octets,
    because the loop reads index n (the octet after the payload, which in
    an advertising report is the RSSI) whenever a structure ends exactly at
    the payload's end or begins at its last octet. */
module AdDecoder {
  import opened Bytes
  import opened AdRender

  /** Decoding from cursor `offset`, with the bounds test of the source:
      stop at the end of the payload, on a zero length octet, or when
      `offset + L > n`; otherwise emit the field and move past it. */
  function DecodeFrom(buf: seq<uint8>, n: nat, offset: nat): seq<Field>
    requires n < |buf|
    decreases n + 1 - offset
  {
    if offset >= n then []
    else
      var len := buf[offset] as nat;
      if len == 0 then []
      else if offset + len > n then []
      else [Field(buf[offset + 1], buf[offset + 2 .. offset + len + 1])] + DecodeFrom(buf, n, offset + len + 1)
  }

  /** The fields `parse_elements` emits for a payload of length n. */
  function Decode(buf: seq<uint8>, n: nat): seq<Field>
    requires n < |buf|
  {
    DecodeFrom(buf, n, 0)
  }

  /** A field that can be written as one structure (L fits in an octet). */
  predicate Encodable(f: Field) {
    |f.value| <= 254
  }

  predicate AllEncodable(fs: seq<Field>) {
    forall i :: 0 <= i < |fs| ==> Encodable(fs[i])
  }

  /** The structure a field occupies: length octet, type octet, value. */
  function EncodeField(f: Field): (s: seq<uint8>)
    requires Encodable(f)
    ensures |s| == |f.value| + 2
  {
    [(|f.value| + 1) as uint8, f.code] + f.value
  }

  /** The octets a run of fields occupies, laid end to end. */
  function Encode(fs: seq<Field>): (s: seq<uint8>)
    requires AllEncodable(fs)
  {
    if fs == [] then [] else EncodeField(fs[0]) + Encode(fs[1..])
  }

  /** `parse_elements` itself: the cursor loop, producing the emitted
      fields and the text it prints for them (colour escapes left out). */
  method ParseElements(eir: seq<uint8>, eirLen: nat) returns (fields: seq<Field>, text: string, ghost passes: nat)
    requires eirLen < |eir|
    ensures fields == Decode(eir, eirLen)
    ensures text == RenderAll(fields)
    ensures 2 * passes <= eirLen + 1
  {
    var offset: nat := 0;
    ghost var pieces: seq<string> := [];
    fields, text, passes := [], "", 0;
    while offset < eirLen
      invariant Walked(eir, eirLen, offset, fields, pieces, text, passes)
      decreases eirLen + 1 - offset
    {
      var fieldLen := eir[offset];
      var fieldType := eir[offset + 1];
      passes := passes + 1;
      if fieldLen == 0 {
        WalkEnds(eir, eirLen, offset, fields, pieces, text, passes - 1);
        return;
      }
      if offset + fieldLen as nat > eirLen {
        WalkEnds(eir, eirLen, offset, fields, pieces, text, passes - 1);
        return;
      }
      var value := eir[offset + 2 .. offset + fieldLen as nat + 1];
      var piece := PrintField(fieldType, value);
      WalkOn(eir, eirLen, offset, fields, pieces, text, passes - 1, fieldType, value, piece);
      text := text + piece;
      pieces := pieces + [piece];
      fields := fields + [Field(fieldType, value)];
      offset := offset + fieldLen as nat + 1;
    }
    WalkEnds(eir, eirLen, offset, fields, pieces, text, passes);
  }

  /** The loop's invariant after `passes` passes with the cursor at `offset`:
      the fields emitted so far, followed by what decoding from the cursor
      emits, are all the fields, and the text is theirs. */
  ghost predicate Walked(eir: seq<uint8>, eirLen: nat, offset: nat, fields: seq<Field>, pieces: seq<string>, text: string, passes: nat)
    requires eirLen < |eir|
  {
    offset <= eirLen + 1 &&
    Decode(eir, eirLen) == fields + DecodeFrom(eir, eirLen, offset) &&
    text == Join(pieces) && Shown(pieces, fields) &&
    passes == |fields| && 2 * |fields| <= offset
  }

  /** One pass that emits the structure at the cursor keeps the invariant. */
  lemma WalkOn(eir: seq<uint8>, eirLen: nat, offset: nat, fields: seq<Field>, pieces: seq<string>, text: string, passes: nat,
               code: uint8, value: seq<uint8>, piece: string)
    requires eirLen < |eir| && Walked(eir, eirLen, offset, fields, pieces, text, passes) && offset < eirLen
    requires eir[offset] != 0 && offset + eir[offset] as nat <= eirLen
    requires code == eir[offset + 1] && value == eir[offset + 2 .. offset + eir[offset] as nat + 1]
    requires Shown([piece], [Field(code, value)])
    ensures Walked(eir, eirLen, offset + eir[offset] as nat + 1, fields + [Field(code, value)], pieces + [piece], text + piece, passes + 1)
  {
    var f := Field(code, value);
    DecodeFromEmits(eir, eirLen, offset);
    assert fields + ([f] + DecodeFrom(eir, eirLen, offset + eir[offset] as nat + 1)) ==
      (fields + [f]) + DecodeFrom(eir, eirLen, offset + eir[offset] as nat + 1);
    JoinAppend(pieces, piece);
    assert [f][0] == f && [piece][0] == piece;
    assert piece == RenderField([f][0]);
    ShownAppend(pieces, fields, piece, f);
  }

  /** A pass that stops the loop leaves no field still to be emitted. */
  lemma WalkEnds(eir: seq<uint8>, eirLen: nat, offset: nat, fields: seq<Field>, pieces: seq<string>, text: string, passes: nat)
    requires eirLen < |eir| && Walked(eir, eirLen, offset, fields, pieces, text, passes)
    requires offset >= eirLen || eir[offset] == 0 || offset + eir[offset] as nat > eirLen
    ensures fields == Decode(eir, eirLen) && text == RenderAll(fields) && 2 * passes <= offset <= eirLen + 1
  {
    assert fields + [] == fields;
    ShownJoin(pieces, fields);
  }


  /** A structure that passes both tests is emitted: its type is the octet
      after the length octet, its value the L - 1 octets after that, and
      decoding goes on L + 1 octets further. */
  lemma DecodeFromEmits(buf: seq<uint8>, n: nat, offset: nat)
    requires n < |buf| && offset < n && buf[offset] != 0 && offset + buf[offset] as nat <= n
    ensures var len := buf[offset] as nat;
      DecodeFrom(buf, n, offset) ==
        [Field(buf[offset + 1], buf[offset + 2 .. offset + len + 1])] + DecodeFrom(buf, n, offset + len + 1)
  {
  }

  /** Re-encoding what was decoded gives back the buffer's own leading
      octets: every field's type is the octet after its length octet and
      its value the L - 1 octets after that, fields are contiguous from the
      cursor, and together they end no later than n + 1. */
  lemma {:induction false} DecodeFromIsPrefix(buf: seq<uint8>, n: nat, offset: nat)
    requires n < |buf| && offset <= n + 1
    ensures var fs := DecodeFrom(buf, n, offset);
      AllEncodable(fs) && offset + |Encode(fs)| <= n + 1 &&
      Encode(fs) == buf[offset .. offset + |Encode(fs)|]
    decreases n + 1 - offset
  {
    if DecodeFrom(buf, n, offset) != [] {
      var next := offset + buf[offset] as nat + 1;
      DecodeFromEmits(buf, n, offset);
      DecodeFromIsPrefix(buf, n, next);
      StructureAt(buf, offset, next, DecodeFrom(buf, n, next));
    }
  }

  /** The structure at `offset`, decoded, followed by fields that re-encode
      to the octets from `next` on, re-encodes to the octets from `offset` on. */
  lemma StructureAt(buf: seq<uint8>, offset: nat, next: nat, rest: seq<Field>)
    requires offset < next <= |buf| && next == offset + buf[offset] as nat + 1 && buf[offset] != 0
    requires AllEncodable(rest) && next + |Encode(rest)| <= |buf| && Encode(rest) == buf[next .. next + |Encode(rest)|]
    ensures var fs := [Field(buf[offset + 1], buf[offset + 2 .. next])] + rest;
      AllEncodable(fs) && |Encode(fs)| == next - offset + |Encode(rest)| &&
      Encode(fs) == buf[offset .. offset + |Encode(fs)|]
  {
    var f := Field(buf[offset + 1], buf[offset + 2 .. next]);
    var fs := [f] + rest;
    assert fs[0] == f && fs[1..] == rest;
    assert EncodeField(f) == buf[offset .. next];
    assert buf[offset .. next + |Encode(rest)|] == buf[offset .. next] + buf[next .. next + |Encode(rest)|];
  }

  /** The decoded fields re-encode to a prefix of the buffer of length at
      most n + 1: at most one octet past the payload is ever consumed. */
  lemma DecodeIsPrefix(buf: seq<uint8>, n: nat)
    requires n < |buf|
    ensures AllEncodable(Decode(buf, n))
    ensures |Encode(Decode(buf, n))| <= n + 1
    ensures Encode(Decode(buf, n)) == buf[..|Encode(Decode(buf, n))|]
  {
    DecodeFromIsPrefix(buf, n, 0);
  }

  /** Every field takes at least two octets, so at most (n + 1) / 2 fields
      come out of a payload of length n, and none out of an empty one. */
  lemma {:induction false} DecodeFromCount(buf: seq<uint8>, n: nat, offset: nat)
    requires n < |buf| && offset <= n + 1
    ensures offset + 2 * |DecodeFrom(buf, n, offset)| <= n + 1
    decreases n + 1 - offset
  {
    if DecodeFrom(buf, n, offset) != [] {
      DecodeFromCount(buf, n, offset + buf[offset] as nat + 1);
    }
  }

  lemma DecodeCount(buf: seq<uint8>, n: nat)
    requires n < |buf|
    ensures 2 * |Decode(buf, n)| <= n + 1
    ensures n == 0 ==> Decode(buf, n) == []
  {
    DecodeFromCount(buf, n, 0);
  }

  /** Decoding only looks at the octets from the cursor on, relative to the
      cursor: a prefix in front of the buffer shifts nothing else. */
  lemma {:induction false} DecodeFromShift(p: seq<uint8>, rest: seq<uint8>, m: nat, offset: nat)
    requires m < |rest|
    ensures DecodeFrom(p + rest, |p| + m, |p| + offset) == DecodeFrom(rest, m, offset)
    decreases m + 1 - offset
  {
    var buf, n, at := p + rest, |p| + m, |p| + offset;
    if offset < m {
      assert buf[at] == rest[offset];
    }
    if offset < m && rest[offset] != 0 && offset + rest[offset] as nat <= m {
      var len := rest[offset] as nat;
      assert buf[at + 1] == rest[offset + 1];
      assert buf[at + 2 .. at + len + 1] == rest[offset + 2 .. offset + len + 1];
      DecodeFromEmits(buf, n, at);
      DecodeFromEmits(rest, m, offset);
      DecodeFromShift(p, rest, m, offset + len + 1);
      assert at + len + 1 == |p| + (offset + len + 1);
      calc {
        DecodeFrom(buf, n, at);
        == [Field(buf[at + 1], buf[at + 2 .. at + len + 1])] + DecodeFrom(buf, n, at + len + 1);
        == [Field(rest[offset + 1], rest[offset + 2 .. offset + len + 1])] + DecodeFrom(rest, m, offset + len + 1);
        == DecodeFrom(rest, m, offset);
      }
    } else {
      assert DecodeFrom(buf, n, at) == [];
      assert DecodeFrom(rest, m, offset) == [];
    }
  }

  /** One whole structure at the cursor, ending inside the payload or on
      the octet after it, is emitted as its field. */
  lemma DecodeFieldStep(f: Field, buf: seq<uint8>, n: nat, offset: nat)
    requires Encodable(f) && n < |buf| && offset + |f.value| + 2 <= n + 1
    requires buf[offset .. offset + |f.value| + 2] == EncodeField(f)
    ensures DecodeFrom(buf, n, offset) == [f] + DecodeFrom(buf, n, offset + |f.value| + 2)
  {
    var ef := EncodeField(f);
    var len := |f.value| + 1;
    assert buf[offset] == ef[0];
    assert buf[offset + 1] == ef[1];
    assert buf[offset + 2 .. offset + len + 1] == ef[2..];
  }

  /** A structure in front of a buffer decodes to its field, followed
      by whatever the buffer decodes to. */
  lemma DecodeCons(f: Field, tail: seq<uint8>, k: nat)
    requires Encodable(f) && k < |tail|
    ensures Decode(EncodeField(f) + tail, |EncodeField(f)| + k) == [f] + Decode(tail, k)
  {
    var ef := EncodeField(f);
    var buf := ef + tail;
    var n := |ef| + k;
    assert buf[0 .. |ef|] == ef;
    DecodeFieldStep(f, buf, n, 0);
    assert 0 + |f.value| + 2 == |ef| + 0;
    DecodeFromShift(ef, tail, k, 0);
    calc {
      Decode(buf, n);
      == DecodeFrom(buf, n, 0);
      == [f] + DecodeFrom(buf, n, |ef| + 0);
      == [f] + DecodeFrom(tail, k, 0);
      == [f] + Decode(tail, k);
    }
  }

  /** Decoding an encoded run followed by anything yields that run and
      then whatever the rest decodes to. */
  lemma {:induction false} DecodeEncode(fs: seq<Field>, rest: seq<uint8>, m: nat)
    requires AllEncodable(fs) && m < |rest|
    ensures Decode(Encode(fs) + rest, |Encode(fs)| + m) == fs + Decode(rest, m)
    decreases |fs|
  {
    if fs == [] {
      assert Encode(fs) + rest == rest;
    } else {
      var f, tail := fs[0], fs[1..];
      assert AllEncodable(tail);
      var ef, e1 := EncodeField(f), Encode(tail);
      assert Encode(fs) == ef + e1;
      assert Encode(fs) + rest == ef + (e1 + rest);
      assert |Encode(fs)| + m == |ef| + (|e1| + m);
      DecodeCons(f, e1 + rest, |e1| + m);
      DecodeEncode(tail, rest, m);
      assert fs == [f] + tail;
      calc {
        Decode(Encode(fs) + rest, |Encode(fs)| + m);
        == Decode(ef + (e1 + rest), |ef| + (|e1| + m));
        == [f] + Decode(e1 + rest, |e1| + m);
        == [f] + (tail + Decode(rest, m));
        == ([f] + tail) + Decode(rest, m);
      }
    }
  }

  /** Round trip: a payload made of whole structures decodes to exactly
      those fields. */
  lemma RoundTrip(fs: seq<Field>, after: uint8)
    requires AllEncodable(fs)
    ensures Decode(Encode(fs) + [after], |Encode(fs)|) == fs
  {
    DecodeEncode(fs, [after], 0);
  }

  /** A zero length octet ends decoding normally: the fields before it are
      all emitted and nothing after it is looked at. */
  lemma ZeroLengthEnds(fs: seq<Field>, junk: seq<uint8>, n: nat)
    requires AllEncodable(fs)
    requires |Encode(fs)| < n < |Encode(fs)| + 1 + |junk|
    ensures Decode(Encode(fs) + ([0] + junk), n) == fs
  {
    DecodeEncode(fs, [0] + junk, n - |Encode(fs)|);
  }

  /** A structure whose declared length runs past the payload is dropped
      without error, and the fields before it are kept. */
  lemma TruncatedFieldDropped(fs: seq<Field>, len: uint8, tail: seq<uint8>, n: nat)
    requires AllEncodable(fs)
    requires |Encode(fs)| < n < |Encode(fs)| + 1 + |tail|
    requires len != 0 && (n - |Encode(fs)|) < len as nat
    ensures Decode(Encode(fs) + ([len] + tail), n) == fs
  {
    DecodeEncode(fs, [len] + tail, n - |Encode(fs)|);
  }

  // ---------------------------------------------------------------------
  // The bounds test as evidently intended: a structure must end inside the
  // payload, i.e. `offset + L + 1 > n` stops decoding, and the type octet
  // is read only once the structure is known to fit.

  function DecodeFixedFrom(buf: seq<uint8>, n: nat, offset: nat): seq<Field>
    requires n <= |buf|
    decreases n - offset
  {
    if offset >= n then []
    else
      var len := buf[offset] as nat;
      if len == 0 then []
      else if offset + len + 1 > n then []
      else [Field(buf[offset + 1], buf[offset + 2 .. offset + len + 1])] + DecodeFixedFrom(buf, n, offset + len + 1)
  }

  function DecodeFixed(buf: seq<uint8>, n: nat): seq<Field>
    requires n <= |buf|
  {
    DecodeFixedFrom(buf, n, 0)
  }

  lemma {:induction false} DecodeFixedFromIsPrefix(buf: seq<uint8>, n: nat, offset: nat)
    requires n <= |buf| && offset <= n
    ensures var fs := DecodeFixedFrom(buf, n, offset);
      AllEncodable(fs) && offset + |Encode(fs)| <= n &&
      Encode(fs) == buf[offset .. offset + |Encode(fs)|]
    decreases n - offset
  {
    if DecodeFixedFrom(buf, n, offset) != [] {
      var next := offset + buf[offset] as nat + 1;
      DecodeFixedFromEmits(buf, n, offset);
      DecodeFixedFromIsPrefix(buf, n, next);
      StructureAt(buf, offset, next, DecodeFixedFrom(buf, n, next));
    }
  }

  lemma DecodeFixedFromEmits(buf: seq<uint8>, n: nat, offset: nat)
    requires n <= |buf| && offset < n && buf[offset] != 0 && offset + buf[offset] as nat + 1 <= n
    ensures var len := buf[offset] as nat;
      DecodeFixedFrom(buf, n, offset) ==
        [Field(buf[offset + 1], buf[offset + 2 .. offset + len + 1])] + DecodeFixedFrom(buf, n, offset + len + 1)
  {
  }

  /** The corrected decoder stays inside the payload: its fields re-encode
      to a prefix of the n payload octets, and the octets after the
      payload never influence the result. */
  lemma DecodeFixedWithinPayload(buf: seq<uint8>, n: nat, other: seq<uint8>)
    requires n <= |buf| && n <= |other| && buf[..n] == other[..n]
    ensures AllEncodable(DecodeFixed(buf, n))
    ensures |Encode(DecodeFixed(buf, n))| <= n
    ensures Encode(DecodeFixed(buf, n)) == buf[..|Encode(DecodeFixed(buf, n))|]
    ensures DecodeFixed(buf, n) == DecodeFixed(other, n)
  {
    DecodeFixedFromIsPrefix(buf, n, 0);
    assert forall i :: 0 <= i < n ==> buf[i] == buf[..n][i] == other[i];
    DecodeFixedFromLocal(buf, other, n, 0);
  }

  lemma {:induction false} DecodeFixedFromLocal(buf: seq<uint8>, other: seq<uint8>, n: nat, offset: nat)
    requires n <= |buf| && n <= |other|
    requires forall i :: 0 <= i < n ==> buf[i] == other[i]
    ensures DecodeFixedFrom(buf, n, offset) == DecodeFixedFrom(other, n, offset)
    decreases n - offset
  {
    if offset < n {
      var len := buf[offset] as nat;
      if len != 0 && offset + len + 1 <= n {
        assert buf[offset + 2 .. offset + len + 1] == other[offset + 2 .. offset + len + 1];
        DecodeFixedFromLocal(buf, other, n, offset + len + 1);
      }
    }
  }

  /** The corrected decoder still reads every well-formed payload back. */
  lemma RoundTripFixed(fs: seq<Field>)
    requires AllEncodable(fs)
    ensures DecodeFixed(Encode(fs), |Encode(fs)|) == fs
  {
    var e := Encode(fs);
    RoundTrip(fs, 0);
    // the program's decoder returns fs, which ends at |e|, not at |e| + 1,
    // so the corrected decoder returns fs as well
    DecodeAgreesUnlessLastEndsAtN(e + [0], |e|, 0);
    DecodeFixedFromLocal(e + [0], e, |e|, 0);
  }

  /** How the two decoders relate: the program's result is the corrected
      result, possibly followed by ONE more field, and that field is one
      whose last octet is the octet at index n, just past the payload. */
  lemma {:induction false} DecodeAgreesUnlessLastEndsAtN(buf: seq<uint8>, n: nat, offset: nat)
    requires n < |buf| && offset <= n + 1
    ensures var a := DecodeFrom(buf, n, offset);
      var c := DecodeFixedFrom(buf, n, offset);
      AllEncodable(a) && (a == c ||
      (|a| == |c| + 1 && a[..|c|] == c && offset + |Encode(a)| == n + 1))
    decreases n + 1 - offset
  {
    var a := DecodeFrom(buf, n, offset);
    var c := DecodeFixedFrom(buf, n, offset);
    DecodeFromIsPrefix(buf, n, offset);
    if offset < n && buf[offset] != 0 && offset + buf[offset] as nat <= n {
      var len := buf[offset] as nat;
      var next := offset + len + 1;
      if next > n {
        // the field ends exactly at n: the program emits it, the fix does not
        assert c == [];
        assert a == [a[0]] + DecodeFrom(buf, n, next);
        assert DecodeFrom(buf, n, next) == [];
        assert a == [a[0]];
        assert Encode(a) == EncodeField(a[0]) + Encode([]);
      } else {
        DecodeAgreesUnlessLastEndsAtN(buf, n, next);
        var a' := DecodeFrom(buf, n, next);
        var c' := DecodeFixedFrom(buf, n, next);
        assert a == [a[0]] + a' && c == [a[0]] + c';
        assert a[1..] == a';
        if a' != c' {
          assert a[..|c|] == [a[0]] + a'[..|c'|];
          assert Encode(a) == EncodeField(a[0]) + Encode(a');
        }
      }
    }
  }

  /** The discrepancy, on a concrete input: payload `02 09` of length 2,
      followed by the RSSI octet 0x41.  The program emits a complete-name
      field whose single value octet is the RSSI octet; the corrected
      decoder emits nothing.  A one-octet payload `01` likewise yields a
      field whose type code is the RSSI octet. */
  lemma OverReadWitness()
    ensures Decode([2, 9, 0x41], 2) == [Field(9, [0x41])]
    ensures DecodeFixed([2, 9, 0x41], 2) == []
    ensures Decode([1, 0xC4], 1) == [Field(0xC4, [])]
    ensures DecodeFixed([1, 0xC4], 1) == []
  {
    assert [2, 9, 0x41][2..3] == [0x41 as uint8];
    assert DecodeFrom([2, 9, 0x41], 2, 3) == [];
    assert DecodeFrom([1, 0xC4], 1, 2) == [];
    assert [1, 0xC4 as uint8][2..2] == [];
  }
}
