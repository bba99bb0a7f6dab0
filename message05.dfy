/**
 * AIS message 5, "Ship static and voyage related data" (ITU-R M.1371,
 * Annex 8, section 3.3): the field table, the decoded record and the
 * one-shot decoder of `AISMessage05Parser`.
 *
 * The parser reads the fields after the 38-bit common header (message id,
 * repeat indicator, user id), which the parser base class handles. The
 * record is immutable: every getter returns the value taken at decoding,
 * and `getMaximumDraught` scales the stored tenths to metres.
 */
module AisMessage05 {
  import opened Bits
  import opened Sixbit
  import opened JavaString
  import opened AisParser
  import FieldTable

  // Indices into the field table.
  const AISVERSION: nat := 0
  const IMONUMBER: nat := 1
  const CALLSIGN: nat := 2
  const NAME: nat := 3
  const TYPEOFSHIPANDCARGO: nat := 4
  const BOW: nat := 5
  const STERN: nat := 6
  const PORT: nat := 7
  const STARBOARD: nat := 8
  const TYPEOFEPFD: nat := 9
  const MONTH: nat := 10
  const DAY: nat := 11
  const HOUR: nat := 12
  const MINUTE: nat := 13
  const DRAUGHT: nat := 14
  const DESTINATION: nat := 15
  const DTE: nat := 16

  /** Start of each field's bit range (0-based, inclusive). */
  const FROM: seq<nat> := [38, 40, 70, 112, 232, 240, 249, 258, 264, 270, 274, 278, 283, 288, 294, 302]

  /** End of each field's bit range (exclusive); the last entry is the bit read as the DTE flag. */
  const TO: seq<nat> := [40, 70, 112, 232, 240, 249, 258, 264, 270, 274, 278, 283, 288, 294, 302, 422, 423]

  /** The size envelope of a message 5 payload, in bits. */
  const MIN_BITS: nat := 424
  const MAX_BITS: nat := 550

  /** A decoded message 5. The field names are those of the getters. */
  datatype Message05 = Message05(
    aisVersionIndicator: nat,
    imoNumber: nat,
    callSign: string,
    name: string,
    typeOfShipAndCargoType: nat,
    bow: nat,
    stern: nat,
    port: nat,
    starboard: nat,
    typeOfEPFD: nat,
    etaMonth: nat,
    etaDay: nat,
    etaHour: nat,
    etaMinute: nat,
    maximumDraughtTenths: nat,
    destination: string,
    dteReady: bool)
  {
    /** `getMaximumDraught`: the stored draught, in tenths of a metre, expressed in metres. */
    function MaximumDraught(): (r: real)
      ensures 0.0 <= r
      ensures r * 10.0 == maximumDraughtTenths as real
    {
      maximumDraughtTenths as real / 10.0
    }
  }

  /** A text field as decoding leaves it: at most `chars` six-bit characters, trimmed at both ends. */
  predicate IsFieldText(s: string, chars: nat)
  {
    |s| <= chars && IsSixbitText(s) && IsTrimmed(s)
  }

  /** What holds of every decoded message: each number fits its field's width and each text its field. */
  predicate Valid(m: Message05)
  {
    && m.aisVersionIndicator < 4
    && m.imoNumber < 0x4000_0000
    && IsFieldText(m.callSign, 7)
    && IsFieldText(m.name, 20)
    && m.typeOfShipAndCargoType < 256
    && m.bow < 512
    && m.stern < 512
    && m.port < 64
    && m.starboard < 64
    && m.typeOfEPFD < 16
    && m.etaMonth < 16
    && m.etaDay < 32
    && m.etaHour < 32
    && m.etaMinute < 64
    && m.maximumDraughtTenths < 256
    && IsFieldText(m.destination, 20)
  }

  /** The width of field `i`, in bits. */
  function Width(i: nat): nat
    requires i < |FROM|
  {
    TO[i] - FROM[i]
  }

  /**
   * The field table is well formed: sixteen non-empty ranges, each starting
   * where the previous one ends, the last ending at bit 422, and the DTE
   * flag read at bit 423, below the 424-bit minimum.
   */
  lemma TableIsWellFormed()
    ensures |FROM| == 16 && |TO| == 17
    ensures FieldTable.Increasing(FROM, TO)
    ensures FieldTable.Contiguous(FROM, TO)
    ensures FROM[AISVERSION] == 38
    ensures TO[DESTINATION] == 422
    ensures TO[DTE] == 423 < MIN_BITS
  {
  }

  /**
   * The widths agree with the layout of message 5: version 2, IMO number 30,
   * call sign 42 (7 characters), name 120 (20 characters), ship type 8, the
   * 30-bit dimension split into bow 9, stern 9, port 6 and starboard 6, EPFD
   * type 4, ETA month 4, day 5, hour 5, minute 6, draught 8 and destination
   * 120 (20 characters).
   */
  lemma WidthsMatchLayout()
    ensures Width(AISVERSION) == 2 && Width(IMONUMBER) == 30
    ensures Width(CALLSIGN) == 6 * 7 && Width(NAME) == 6 * 20
    ensures Width(TYPEOFSHIPANDCARGO) == 8
    ensures Width(BOW) == 9 && Width(STERN) == 9 && Width(PORT) == 6 && Width(STARBOARD) == 6
    ensures Width(BOW) + Width(STERN) + Width(PORT) + Width(STARBOARD) == 30
    ensures Width(TYPEOFEPFD) == 4
    ensures Width(MONTH) == 4 && Width(DAY) == 5 && Width(HOUR) == 5 && Width(MINUTE) == 6
    ensures Width(DRAUGHT) == 8 && Width(DESTINATION) == 6 * 20
  {
  }

  /** Any payload that passes the envelope is read in bounds: every range and the DTE bit lie below its length. */
  lemma ReadsInBounds(bitLength: nat)
    requires MIN_BITS <= bitLength
    ensures forall i :: 0 <= i < |FROM| ==> FROM[i] < TO[i] <= bitLength
    ensures TO[DTE] < bitLength
  {
    TableIsWellFormed();
    forall i | 0 <= i < |FROM|
      ensures FROM[i] < TO[i] <= bitLength
    {
      FieldTable.Span(FROM, TO, i);
    }
  }

  /**
   * Where each value of a decoded message comes from, in the layout's own
   * bit positions (0-based, end exclusive): the numbers are the unsigned
   * values of their ranges, the texts the trimmed six-bit texts of theirs.
   */
  lemma DecodedFields(bits: seq<bool>)
    requires Decode(bits).Ok?
    ensures 424 <= |bits|
    ensures Decode(bits).value.aisVersionIndicator == GetInt(bits, 38, 40)
    ensures Decode(bits).value.imoNumber == GetInt(bits, 40, 70)
    ensures Decode(bits).value.callSign == Trim(GetString(bits, 70, 112))
    ensures Decode(bits).value.name == Trim(GetString(bits, 112, 232))
    ensures Decode(bits).value.typeOfShipAndCargoType == GetInt(bits, 232, 240)
    ensures Decode(bits).value.bow == GetInt(bits, 240, 249)
    ensures Decode(bits).value.stern == GetInt(bits, 249, 258)
    ensures Decode(bits).value.port == GetInt(bits, 258, 264)
    ensures Decode(bits).value.starboard == GetInt(bits, 264, 270)
    ensures Decode(bits).value.typeOfEPFD == GetInt(bits, 270, 274)
    ensures Decode(bits).value.etaMonth == GetInt(bits, 274, 278)
    ensures Decode(bits).value.etaDay == GetInt(bits, 278, 283)
    ensures Decode(bits).value.etaHour == GetInt(bits, 283, 288)
    ensures Decode(bits).value.etaMinute == GetInt(bits, 288, 294)
    ensures Decode(bits).value.maximumDraughtTenths == GetInt(bits, 294, 302)
    ensures Decode(bits).value.destination == Trim(GetString(bits, 302, 422))
    ensures Decode(bits).value.dteReady == bits[423]
  {
  }

  /** A six-bit text, once trimmed, is a field text no longer than the untrimmed one. */
  lemma TrimmedFieldText(s: string)
    requires IsSixbitText(s)
    ensures IsFieldText(Trim(s), |s|)
  {
    var r, st := Trim(s), SkipLeading(s, 0);
    forall k | 0 <= k < |r|
      ensures InAlphabet(r[k])
    {
      assert r[k] == s[st + k];
    }
  }

  /** `getInt(FROM[i], TO[i])`: integer field `i` of a payload that passed the envelope. */
  function IntField(bits: seq<bool>, i: nat): (r: nat)
    requires MIN_BITS <= |bits| && i < |FROM|
    ensures r < Pow2(Width(i))
  {
    ReadsInBounds(|bits|);
    GetInt(bits, FROM[i], TO[i])
  }

  /** `getString(FROM[i], TO[i]).trim()`: text field `i` of a payload that passed the envelope, trimmed. */
  function TextField(bits: seq<bool>, i: nat): (r: string)
    requires MIN_BITS <= |bits| && i < |FROM| && Width(i) % 6 == 0
    ensures IsFieldText(r, Width(i) / 6)
  {
    ReadsInBounds(|bits|);
    var s := GetString(bits, FROM[i], TO[i]);
    TrimmedFieldText(s);
    Trim(s)
  }

  /**
   * The constructor of `AISMessage05Parser`: check the 424..550-bit
   * envelope, then read every field of the table once, trimming the text
   * fields. A payload outside the envelope yields the length error and no
   * message at all.
   */
  function Decode(bits: seq<bool>): (r: Result<Message05>)
    ensures r.Ok? <==> MIN_BITS <= |bits| <= MAX_BITS
    ensures r.Err? ==> r.error == LengthError(|bits|, MIN_BITS, MAX_BITS)
    ensures r.Ok? ==> r.value.dteReady == bits[TO[DTE]]
  {
    var length := CheckLength(|bits|, MIN_BITS, MAX_BITS);
    if length.Err? then Err(length.error)
    else
      WidthsMatchLayout();
      Ok(Message05(
        IntField(bits, AISVERSION),
        IntField(bits, IMONUMBER),
        TextField(bits, CALLSIGN),
        TextField(bits, NAME),
        IntField(bits, TYPEOFSHIPANDCARGO),
        IntField(bits, BOW),
        IntField(bits, STERN),
        IntField(bits, PORT),
        IntField(bits, STARBOARD),
        IntField(bits, TYPEOFEPFD),
        IntField(bits, MONTH),
        IntField(bits, DAY),
        IntField(bits, HOUR),
        IntField(bits, MINUTE),
        IntField(bits, DRAUGHT),
        TextField(bits, DESTINATION),
        GetBoolean(bits, TO[DTE])))
  }

  /** The powers of two that bound the fields of message 5. */
  lemma FieldPowers()
    ensures Pow2(2) == 4 && Pow2(4) == 16 && Pow2(5) == 32 && Pow2(6) == 64
    ensures Pow2(8) == 256 && Pow2(9) == 512 && Pow2(30) == 0x4000_0000
  {
    assert Pow2(10) == 1024;
    assert Pow2(20) == 1024 * 1024;
  }

  /**
   * Every decoded message is valid: each integer field is below 2 to the
   * power of its width (version < 4, IMO number < 2^30, month < 16, day and
   * hour < 32, minute < 64, ...), and each text field has at most 7, 20 or
   * 20 six-bit characters with nothing at or below the space at either end.
   */
  lemma DecodedIsValid(bits: seq<bool>)
    requires Decode(bits).Ok?
    ensures Valid(Decode(bits).value)
  {
    FieldPowers();
    WidthsMatchLayout();
  }

  /**
   * `getMaximumDraught` of a decoded message lies between 0 and 25.5
   * metres: the raw draught is an 8-bit count of tenths.
   */
  lemma DecodedDraughtRange(bits: seq<bool>)
    requires Decode(bits).Ok?
    ensures 0.0 <= Decode(bits).value.MaximumDraught() <= 25.5
  {
    DecodedIsValid(bits);
  }

  /**
   * The four dimension ranges together make up the single 30-bit dimension
   * field of the layout: read as one number, bits 240 to 270 are bow,
   * stern, port and starboard side by side.
   */
  lemma DimensionIsOneField(bits: seq<bool>)
    requires Decode(bits).Ok?
    ensures GetInt(bits, 240, 270) == ((Decode(bits).value.bow * 512 + Decode(bits).value.stern) * 64 + Decode(bits).value.port) * 64 + Decode(bits).value.starboard
  {
    DecodedFields(bits);
    FieldPowers();
    GetIntSplit(bits, 240, 264, 270);
    GetIntSplit(bits, 240, 258, 264);
    GetIntSplit(bits, 240, 249, 258);
  }

  /** Payloads that agree on every range of the table read the same fields. */
  lemma FieldsAgree(bits: seq<bool>, other: seq<bool>)
    requires MIN_BITS <= |bits| == |other|
    requires forall i :: 0 <= i < |FROM| && TO[i] <= |bits| ==> bits[FROM[i] .. TO[i]] == other[FROM[i] .. TO[i]]
    ensures forall i :: 0 <= i < |FROM| ==> IntField(bits, i) == IntField(other, i)
    ensures forall i :: 0 <= i < |FROM| && Width(i) % 6 == 0 ==> TextField(bits, i) == TextField(other, i)
  {
    ReadsInBounds(|bits|);
    forall i | 0 <= i < |FROM|
      ensures IntField(bits, i) == IntField(other, i)
      ensures Width(i) % 6 == 0 ==> TextField(bits, i) == TextField(other, i)
    {
      if Width(i) % 6 == 0 {
        GetStringLocal(bits, other, FROM[i], TO[i]);
      }
    }
  }

  /**
   * The decoder reads only the ranges of the table and the DTE bit: two
   * payloads of the same length that agree there decode alike, whatever the
   * other bits hold (the 38-bit header, bit 422 and the bits after 423).
   */
  lemma DecodeReadsOnlyTable(bits: seq<bool>, other: seq<bool>)
    requires |bits| == |other|
    requires forall i :: 0 <= i < |FROM| && TO[i] <= |bits| ==> bits[FROM[i] .. TO[i]] == other[FROM[i] .. TO[i]]
    requires TO[DTE] < |bits| ==> bits[TO[DTE]] == other[TO[DTE]]
    ensures Decode(bits) == Decode(other)
  {
    if MIN_BITS <= |bits| <= MAX_BITS {
      FieldsAgree(bits, other);
      WidthsMatchLayout();
    }
  }

  /**
   * Bit 422, where the layout places the DTE flag, is read by no field: the
   * decoder takes the DTE flag from bit 423, so flipping bit 422 changes
   * nothing in the decoded message.
   */
  lemma Bit422IsNotRead(bits: seq<bool>, b: bool)
    requires 422 < |bits|
    ensures Decode(bits[422 := b]) == Decode(bits)
  {
    var other := bits[422 := b];
    ReadsInBounds(MIN_BITS);
    TableIsWellFormed();
    forall i | 0 <= i < |FROM| && TO[i] <= |bits|
      ensures bits[FROM[i] .. TO[i]] == other[FROM[i] .. TO[i]]
    {
      FieldTable.Span(FROM, TO, i);
    }
    DecodeReadsOnlyTable(bits, other);
  }

  /** The draught of a vessel whose raw draught is 78 tenths reads as 7.8 metres. */
  lemma DraughtExample(m: Message05)
    requires m.maximumDraughtTenths == 78
    ensures m.MaximumDraught() == 7.8
  {
  }
}
