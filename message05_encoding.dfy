/**
 * The payload a transmitter builds for a message 5, laid out by the same
 * field table, and the round trip: decoding an encoded valid message gives
 * that message back. Text fields are padded with spaces, which `trim`
 * removes again; the DTE flag goes to bit 423, the bit the decoder reads.
 */
module AisMessage05Encoding {
  import opened Bits
  import opened Sixbit
  import opened JavaString
  import opened AisParser
  import opened AisMessage05
  import FieldTable

  /** `n` spaces, the padding of a text field. */
  function Spaces(n: nat): (r: string)
    ensures |r| == n
    ensures IsSixbitText(r) && AllTrimmable(r, 0, n)
  {
    seq(n, _ => ' ')
  }

  /** The bits of a text field of `chars` characters holding `s`: its six-bit codes, then space codes up to the field's width. */
  function TextFieldBits(s: string, chars: nat): (r: seq<bool>)
    requires |s| <= chars && IsSixbitText(s)
    ensures |r| == 6 * chars
  {
    TextBits(s) + TextBits(Spaces(chars - |s|))
  }

  /** What a range of the field table carries: a number, or a text sent as six-bit characters. */
  datatype FieldValue = Number(n: nat) | Text(s: string)

  /** `v` can be written into a range of `width` bits. */
  predicate Fits(v: FieldValue, width: nat)
  {
    match v
    case Number(n) => n < Pow2(width)
    case Text(s) => width % 6 == 0 && |s| <= width / 6 && IsSixbitText(s)
  }

  /** The bits of a range of `width` bits that carries `v`: a number big-endian, a text space-padded. */
  function FieldBits(v: FieldValue, width: nat): (r: seq<bool>)
    requires Fits(v, width)
    ensures |r| == width
  {
    match v
    case Number(n) => ToBits(n, width)
    case Text(s) => TextFieldBits(s, width / 6)
  }

  /** The value that range `i` of the field table carries for the message `m`. */
  function FieldOf(m: Message05, i: nat): FieldValue
    requires i < |FROM|
  {
    match i
    case 0 => Number(m.aisVersionIndicator)
    case 1 => Number(m.imoNumber)
    case 2 => Text(m.callSign)
    case 3 => Text(m.name)
    case 4 => Number(m.typeOfShipAndCargoType)
    case 5 => Number(m.bow)
    case 6 => Number(m.stern)
    case 7 => Number(m.port)
    case 8 => Number(m.starboard)
    case 9 => Number(m.typeOfEPFD)
    case 10 => Number(m.etaMonth)
    case 11 => Number(m.etaDay)
    case 12 => Number(m.etaHour)
    case 13 => Number(m.etaMinute)
    case 14 => Number(m.maximumDraughtTenths)
    case _ => Text(m.destination)
  }

  /** Every value of a valid message fits the width of its range, and every text is trimmed. */
  lemma ValueFits(m: Message05, i: nat)
    requires Valid(m) && i < |FROM|
    ensures Fits(FieldOf(m, i), Width(i))
    ensures FieldOf(m, i).Text? ==> IsTrimmed(FieldOf(m, i).s)
  {
    FieldPowers();
    WidthsMatchLayout();
    match i
    case 2 => WholeCharacters(7);
    case 3 => WholeCharacters(20);
    case 15 => WholeCharacters(20);
    case _ =>
  }

  /** The bits of range `i` of the field table for the message `m`. */
  function FieldPiece(m: Message05, i: nat): (r: seq<bool>)
    requires Valid(m) && i < |FROM|
    ensures |r| == Width(i)
  {
    ValueFits(m, i);
    FieldBits(FieldOf(m, i), Width(i))
  }

  /** The header followed by one piece per range of the field table. */
  function Pieces(header: seq<bool>, m: Message05): (segs: seq<seq<bool>>)
    requires Valid(m)
    ensures |segs| == |FROM| + 1
    ensures segs[0] == header
    ensures forall i :: 0 <= i < |FROM| ==> segs[i + 1] == FieldPiece(m, i)
  {
    seq(|FROM| + 1, j requires 0 <= j <= |FROM| => if j == 0 then header else FieldPiece(m, j - 1))
  }

  /**
   * The 424-bit payload of a valid message after the given 38-bit common
   * header: the fields of the table, then a clear bit 422 and the DTE flag
   * at bit 423, where the decoder reads it.
   */
  function Encode(header: seq<bool>, m: Message05): (bits: seq<bool>)
    requires Valid(m)
  {
    FieldTable.Concat(Pieces(header, m)) + [false, m.dteReady]
  }

  /** Range `i` of an encoded payload holds the bits of field `i`. */
  lemma EncodedRange(header: seq<bool>, m: Message05, i: nat)
    requires Valid(m) && |header| == FROM[AISVERSION] && i < |FROM|
    ensures FROM[i] < TO[i] <= |Encode(header, m)|
    ensures Encode(header, m)[FROM[i] .. TO[i]] == FieldPiece(m, i)
  {
    var segs := Pieces(header, m);
    TableIsWellFormed();
    FieldTable.FieldOfConcat(segs, FROM, TO, i);
    SliceOfPrefix(FieldTable.Concat(segs), [false, m.dteReady], FROM[i], TO[i]);
  }

  /** The two bits appended after a payload's fields. */
  lemma Trailer(fields: seq<bool>, unread: bool, flag: bool)
    ensures |fields + [unread, flag]| == |fields| + 2
    ensures (fields + [unread, flag])[|fields| + 1] == flag
  {
  }

  /** The header and the sixteen fields together fill bits 0 to 422. */
  lemma FieldsLength(segs: seq<seq<bool>>)
    requires |segs| == |FROM| + 1 && |segs[0]| == FROM[AISVERSION]
    requires forall i :: 0 <= i < |FROM| ==> |segs[i + 1]| == Width(i)
    ensures |FieldTable.Concat(segs)| == TO[DESTINATION]
  {
    TableIsWellFormed();
    forall i | 0 <= i < |FROM|
      ensures |segs[i + 1]| == TO[i] - FROM[i]
    {
      assert |segs[i + 1]| == Width(i);
    }
    FieldTable.TableLength(segs, FROM, TO);
  }

  /** An encoded payload is 424 bits long and carries the DTE flag at bit 423. */
  lemma EncodedDte(header: seq<bool>, m: Message05)
    requires Valid(m) && |header| == FROM[AISVERSION]
    ensures |Encode(header, m)| == MIN_BITS
    ensures Encode(header, m)[TO[DTE]] == m.dteReady
  {
    var segs := Pieces(header, m);
    forall i | 0 <= i < |FROM|
      ensures |segs[i + 1]| == Width(i)
    {
      assert segs[i + 1] == FieldPiece(m, i);
    }
    FieldsLength(segs);
    Trailer(FieldTable.Concat(segs), false, m.dteReady);
  }

  /** A range that holds a trimmed text, space-padded, reads back, once trimmed, as that text. */
  lemma TextReadsBack(bits: seq<bool>, from: nat, to: nat, s: string, chars: nat)
    requires from <= to <= |bits| && to - from == 6 * chars
    requires |s| <= chars && IsSixbitText(s) && IsTrimmed(s)
    requires bits[from..to] == TextFieldBits(s, chars)
    ensures (to - from) % 6 == 0
    ensures Trim(GetString(bits, from, to)) == s
  {
    var pad := Spaces(chars - |s|);
    TextBitsAppend(s, pad);
    GetStringOfTextBits(bits, from, to, s + pad);
    TrimOfPadded(s, pad);
  }

  /** `n` '@' characters, the padding six-bit value 0 stands for. */
  function Ats(n: nat): (r: string)
    ensures |r| == n && IsSixbitText(r)
    ensures forall k :: 0 <= k < n ==> r[k] == '@'
  {
    seq(n, _ => '@')
  }

  /**
   * A text padded with '@' (six-bit value 0), the padding transmitters
   * commonly use, keeps its padding: `trim` removes only characters at or
   * below the space, so the '@'s come back in the decoded text.
   */
  lemma AtPaddingIsKept(bits: seq<bool>, from: nat, to: nat, s: string, n: nat)
    requires IsSixbitText(s) && IsTrimmed(s)
    requires from <= to <= |bits| && bits[from..to] == TextBits(s + Ats(n))
    ensures (to - from) % 6 == 0
    ensures Trim(GetString(bits, from, to)) == s + Ats(n)
  {
    var t := s + Ats(n);
    TextBitsAppend(s, Ats(n));
    if n == 0 {
      assert t == s;
    } else {
      assert t[|t| - 1] == '@';
      assert t[0] == if s == [] then '@' else s[0];
    }
    GetStringOfTextBits(bits, from, to, t);
    TrimOfTrimmed(t);
  }

  /** A payload whose every range holds the bits of the corresponding value of `m`. */
  predicate LaidOut(bits: seq<bool>, m: Message05)
    requires Valid(m)
  {
    forall i :: 0 <= i < |FROM| ==>
      FROM[i] < TO[i] <= |bits| && bits[FROM[i] .. TO[i]] == FieldPiece(m, i)
  }

  /** An encoded payload is laid out by the field table. */
  lemma EncodedIsLaidOut(header: seq<bool>, m: Message05)
    requires Valid(m) && |header| == FROM[AISVERSION]
    ensures LaidOut(Encode(header, m), m)
  {
    forall i | 0 <= i < |FROM|
      ensures FROM[i] < TO[i] <= |Encode(header, m)|
      ensures Encode(header, m)[FROM[i] .. TO[i]] == FieldPiece(m, i)
    {
      EncodedRange(header, m, i);
    }
  }

  /** A width that is a whole number of characters is six bits per character. */
  lemma WholeWidth(w: nat)
    requires w % 6 == 0
    ensures 6 * (w / 6) == w
  {
  }

  /**
   * Range `i` of a laid-out payload reads back as the value it carries: a
   * number through `getInt`, a text through `getString` and `trim`.
   */
  lemma FieldReadsBack(bits: seq<bool>, m: Message05, i: nat)
    requires Valid(m) && MIN_BITS <= |bits| && LaidOut(bits, m) && i < |FROM|
    ensures FieldOf(m, i).Number? ==> IntField(bits, i) == FieldOf(m, i).n
    ensures FieldOf(m, i).Text? ==> Width(i) % 6 == 0 && TextField(bits, i) == FieldOf(m, i).s
  {
    var v, w := FieldOf(m, i), Width(i);
    ValueFits(m, i);
    assert bits[FROM[i] .. TO[i]] == FieldPiece(m, i) == FieldBits(v, w);
    if v.Text? {
      WholeWidth(w);
      TextReadsBack(bits, FROM[i], TO[i], v.s, w / 6);
    }
  }

  /** Every range of a laid-out payload reads back as the value it carries. */
  lemma FieldsReadBack(bits: seq<bool>, m: Message05)
    requires Valid(m) && MIN_BITS <= |bits| && LaidOut(bits, m)
    ensures forall i :: 0 <= i < |FROM| && FieldOf(m, i).Number? ==> IntField(bits, i) == FieldOf(m, i).n
    ensures forall i :: 0 <= i < |FROM| && FieldOf(m, i).Text? && Width(i) % 6 == 0 ==> TextField(bits, i) == FieldOf(m, i).s
  {
    forall i | 0 <= i < |FROM|
      ensures FieldOf(m, i).Number? ==> IntField(bits, i) == FieldOf(m, i).n
      ensures FieldOf(m, i).Text? ==> Width(i) % 6 == 0 && TextField(bits, i) == FieldOf(m, i).s
    {
      FieldReadsBack(bits, m, i);
    }
  }

  /**
   * A payload within the envelope whose every range reads as the value `m`
   * gives it, and whose bit 423 is the DTE flag of `m`, decodes to `m`.
   */
  lemma DecodeReadsAs(bits: seq<bool>, m: Message05)
    requires MIN_BITS <= |bits| <= MAX_BITS
    requires forall i :: 0 <= i < |FROM| && FieldOf(m, i).Number? ==> IntField(bits, i) == FieldOf(m, i).n
    requires forall i :: 0 <= i < |FROM| && FieldOf(m, i).Text? && Width(i) % 6 == 0 ==> TextField(bits, i) == FieldOf(m, i).s
    requires bits[TO[DTE]] == m.dteReady
    ensures Decode(bits) == Ok(m)
  {
    WidthsMatchLayout();
  }

  /** A payload within the envelope, laid out by the table and carrying the DTE flag at bit 423, decodes to the message. */
  lemma DecodeLaidOut(bits: seq<bool>, m: Message05)
    requires Valid(m) && MIN_BITS <= |bits| <= MAX_BITS && LaidOut(bits, m) && bits[TO[DTE]] == m.dteReady
    ensures Decode(bits) == Ok(m)
  {
    FieldsReadBack(bits, m);
    DecodeReadsAs(bits, m);
  }

  /**
   * Round trip: a valid message, encoded after any 38-bit common header,
   * decodes to the same message.
   */
  lemma DecodeEncode(header: seq<bool>, m: Message05)
    requires Valid(m) && |header| == FROM[AISVERSION]
    ensures Decode(Encode(header, m)) == Ok(m)
  {
    EncodedDte(header, m);
    EncodedIsLaidOut(header, m);
    DecodeLaidOut(Encode(header, m), m);
  }
}
