/**
Bytes, and the octet classes of section 2.2 of RFC 2616 as the package's table
computes them.  The table is filled from octet 32 up, so it departs from the RFC
below that; `TableAgainstRfc` says exactly where.
*/
module Octets {
  type Byte = b: int | 0 <= b < 256
  type Bytes = seq<Byte>

  const TAB: Byte := 9
  const LF: Byte := 10
  const CR: Byte := 13
  const SPACE: Byte := 32
  const QUOTE: Byte := 34
  const OPEN: Byte := 40
  const CLOSE: Byte := 41
  const COMMA: Byte := 44
  const SEMICOLON: Byte := 59
  const EQUALITY: Byte := 61
  const BACKSLASH: Byte := 92
  const DEL: Byte := 127

  /** ( ) < > @ , ; : " / [ ] ? = { } \ */
  const SEPARATORS: set<Byte> := {40, 41, 60, 62, 64, 44, 59, 58, 34, 47, 91, 93, 63, 61, 123, 125, 92}

  /** The bit set of an octet, one flag a bit. */
  datatype OctetType = OctetType(isChar: bool, isControl: bool, isSpace: bool, isSeparator: bool, isToken: bool)

  const NO_TYPE := OctetType(false, false, false, false, false)

  /** The table entry of an octet. */
  function Classify(c: Byte): OctetType {
    if c < 32 then NO_TYPE
    else
      var separator := c in SEPARATORS || c == SPACE;
      var control := c == DEL;
      OctetType(c <= 127, control, c == SPACE, separator, c <= 127 && !control && !separator)
  }

  /** Fills the table octet by octet; entries below 32 keep their zero value. */
  method InitOctetTypes() returns (table: array<OctetType>)
    ensures table.Length == 256
    ensures forall c: Byte :: table[c] == Classify(c)
  {
    table := new OctetType[256](_ => NO_TYPE);
    var c := 32;
    while c < 256
      invariant 32 <= c <= 256
      invariant forall d: Byte :: table[d] == if d < c then Classify(d) else NO_TYPE
    {
      var t := NO_TYPE;
      if c <= 127 {
        t := t.(isChar := true);
      }
      if 0 <= c <= 31 || c == 127 {
        t := t.(isControl := true);
      }
      if c in SEPARATORS {
        t := t.(isSeparator := true);
      } else if c == SPACE || c == TAB {
        t := t.(isSpace := true, isSeparator := true);
      }
      if t.isChar && !t.isControl && !t.isSeparator && !t.isSpace {
        t := t.(isToken := true);
      }
      table[c] := t;
      c := c + 1;
    }
  }

  predicate IsToken(c: Byte) { Classify(c).isToken }

  predicate IsSpace(c: Byte) { Classify(c).isSpace }

  predicate IsSeparator(c: Byte) { Classify(c).isSeparator }

  predicate IsControl(c: Byte) { Classify(c).isControl }

  // The rules of section 2.2 of RFC 2616.

  predicate RfcChar(c: Byte) { c <= 127 }

  predicate RfcControl(c: Byte) { c <= 31 || c == DEL }

  predicate RfcSpace(c: Byte) { c == SPACE || c == TAB }

  predicate RfcSeparator(c: Byte) { c in SEPARATORS || RfcSpace(c) }

  predicate RfcToken(c: Byte) { RfcChar(c) && !RfcControl(c) && !RfcSeparator(c) }

  /**
  The table agrees with the RFC on tokens everywhere, on characters and controls
  exactly from 32 up, and on spaces and separators exactly away from the tab.
  */
  lemma {:induction false} TableAgainstRfc(c: Byte)
    ensures IsToken(c) <==> RfcToken(c)
    ensures Classify(c).isChar == RfcChar(c) <==> c >= 32
    ensures IsControl(c) == RfcControl(c) <==> c >= 32
    ensures IsSpace(c) == RfcSpace(c) <==> c != TAB
    ensures IsSeparator(c) == RfcSeparator(c) <==> c != TAB
  {
    assert forall s :: s in SEPARATORS ==> 32 <= s <= 127;
  }

  /** A non-empty run of token octets. */
  predicate IsTokenWord(b: Bytes) {
    b != [] && AllTokens(b)
  }

  predicate AllTokens(b: Bytes) {
    forall i :: 0 <= i < |b| ==> IsToken(b[i])
  }
}
