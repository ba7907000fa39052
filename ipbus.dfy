/**
 * IPbus transaction headers.
 *
 * `calculateIPbusHeader` and `extractIPbusHeader` are implemented by the
 * concrete IPbus protocol versions, outside the packing core. The model keeps
 * only what the core relies on: a header carries a transaction type, a word
 * count, a transaction id and an info (response) code, and extracting a
 * calculated header gives back those four fields. The bit layout below is the
 * model's own choice: type in bits 0-3, info in bits 4-7, word count in bits
 * 8-23 and id in bits 24-31.
 */
module IPbus {
  import opened Words
  import opened Wrappers

  datatype TransactionType = B_O_T | R_A_I | READ | WRITE | NI_READ | NI_WRITE | RMW_BITS | RMW_SUM

  datatype Header = Header(ttype: TransactionType, words: nat, id: nat, info: nat)

  const MaxWords: nat := 0xFFFF
  const IdCount: nat := 0x100

  function TypeCode(t: TransactionType): (c: nat)
    ensures c < 8
  {
    match t
    case B_O_T => 0
    case R_A_I => 1
    case READ => 2
    case WRITE => 3
    case NI_READ => 4
    case NI_WRITE => 5
    case RMW_BITS => 6
    case RMW_SUM => 7
  }

  /** The inverse of TypeCode; codes 8 to 15 name no transaction type. */
  function TypeOfCode(c: nat): (r: Option<TransactionType>)
    ensures r.Some? <==> c < 8
    ensures r.Some? ==> TypeCode(r.value) == c
  {
    if c == 0 then Some(B_O_T)
    else if c == 1 then Some(R_A_I)
    else if c == 2 then Some(READ)
    else if c == 3 then Some(WRITE)
    else if c == 4 then Some(NI_READ)
    else if c == 5 then Some(NI_WRITE)
    else if c == 6 then Some(RMW_BITS)
    else if c == 7 then Some(RMW_SUM)
    else None
  }

  /** The fields fit the header word. */
  predicate Encodable(h: Header) {
    h.words <= MaxWords && h.id < IdCount && h.info < 0x10
  }

  /** `calculateIPbusHeader`, with the id and info code made explicit. */
  function Encode(h: Header): uint32
    requires Encodable(h)
  {
    TypeCode(h.ttype) + 0x10 * h.info + 0x100 * h.words + 0x100_0000 * h.id
  }

  /** `extractIPbusHeader`: fails on a word whose type field names no transaction. */
  function Decode(w: uint32): Option<Header> {
    match TypeOfCode(w % 0x10)
    case None => None
    case Some(t) => Some(Header(t, (w / 0x100) % 0x1_0000, w / 0x100_0000, (w / 0x10) % 0x10))
  }

  /** Extracting a calculated header gives back its fields. */
  lemma DecodeEncode(h: Header)
    requires Encodable(h)
    ensures Decode(Encode(h)) == Some(h)
  {
    var w := Encode(h);
    var tc := TypeCode(h.ttype);
    var hi := h.words + 0x1_0000 * h.id;
    DivModOf(w, 0x10, h.info + 0x10 * hi, tc);
    DivModOf(h.info + 0x10 * hi, 0x10, hi, h.info);
    DivModOf(w, 0x100, hi, tc + 0x10 * h.info);
    DivModOf(hi, 0x1_0000, h.id, h.words);
    DivModOf(w, 0x100_0000, h.id, tc + 0x10 * h.info + 0x100 * h.words);
  }

  /** Every word that extracts to a header is the calculation of that header. */
  lemma EncodeDecode(w: uint32)
    requires Decode(w).Some?
    ensures Encodable(Decode(w).value) && Encode(Decode(w).value) == w
  {
    var h := Decode(w).value;
    var x := w as int;
    var a, b, c, d := x % 0x10, (x / 0x10) % 0x10, (x / 0x100) % 0x1_0000, x / 0x100_0000;
    assert x == a + 0x10 * (x / 0x10);
    assert x / 0x10 == b + 0x10 * ((x / 0x10) / 0x10);
    assert (x / 0x10) / 0x10 == x / 0x100;
    assert x / 0x100 == c + 0x1_0000 * ((x / 0x100) / 0x1_0000);
    assert (x / 0x100) / 0x1_0000 == d;
    assert x == a + 0x10 * b + 0x100 * c + 0x100_0000 * d;
    assert TypeCode(h.ttype) == a;
  }

  /**
   * How far Validate moves the send cursor past a request of this header,
   * in bytes: the header and the words that follow it.
   */
  function SendStep(h: Header): (n: nat)
    ensures n >= 4 && n % 4 == 0
  {
    match h.ttype
    case B_O_T => 4
    case R_A_I => 4
    case READ => 8
    case NI_READ => 8
    case WRITE => (2 + h.words) * 4
    case NI_WRITE => (2 + h.words) * 4
    case RMW_SUM => 12
    case RMW_BITS => 16
  }

  /** How many reply slots Validate moves past for a reply of this type. */
  function ReplyStep(t: TransactionType): (n: nat)
    ensures 1 <= n <= 2
  {
    match t
    case B_O_T => 1
    case WRITE => 1
    case NI_WRITE => 1
    case R_A_I => 2
    case READ => 2
    case NI_READ => 2
    case RMW_SUM => 2
    case RMW_BITS => 2
  }
}
