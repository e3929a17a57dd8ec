/** The 64 printable characters of the keyed cipher and the table that reads them back. */
module CipherTables {
  import opened Bytes

  const TILDE: byte := 0x7E

  // ---------- the two tables ----------

  /** ENCODE_TABLE, row by row, for indexes below 64. */
  function Symbol(d: nat): byte {
    if d < 16 then Symbols0(d) else if d < 32 then Symbols1(d) else if d < 48 then Symbols2(d) else Symbols3(d)
  }

  function Symbols0(d: nat): byte {
    match d
    case 0 => 0x32 case 1 => 0x31 case 2 => 0x30 case 3 => 0x36
    case 4 => 0x46 case 5 => 0x34 case 6 => 0x35 case 7 => 0x33
    case 8 => 0x45 case 9 => 0x38 case 10 => 0x37 case 11 => 0x39
    case 12 => 0x43 case 13 => 0x41 case 14 => 0x42 case _ => 0x44
  }

  function Symbols1(d: nat): byte {
    match d
    case 16 => 0x49 case 17 => 0x48 case 18 => 0x47 case 19 => 0x4D
    case 20 => 0x56 case 21 => 0x4B case 22 => 0x4C case 23 => 0x4A
    case 24 => 0x55 case 25 => 0x4F case 26 => 0x4E case 27 => 0x50
    case 28 => 0x53 case 29 => 0x51 case 30 => 0x52 case _ => 0x54
  }

  function Symbols2(d: nat): byte {
    match d
    case 32 => 0x59 case 33 => 0x58 case 34 => 0x57 case 35 => 0x63
    case 36 => 0x6C case 37 => 0x61 case 38 => 0x62 case 39 => 0x5A
    case 40 => 0x6B case 41 => 0x65 case 42 => 0x64 case 43 => 0x66
    case 44 => 0x69 case 45 => 0x67 case 46 => 0x68 case _ => 0x6A
  }

  function Symbols3(d: nat): byte {
    match d
    case 48 => 0x6F case 49 => 0x6E case 50 => 0x6D case 51 => 0x73
    case 52 => 0x28 case 53 => 0x71 case 54 => 0x72 case 55 => 0x70
    case 56 => 0x27 case 57 => 0x75 case 58 => 0x74 case 59 => 0x76
    case 60 => 0x79 case 61 => 0x77 case 62 => 0x78 case _ => 0x7A
  }

  /** DECODE_TABLE, row by row, read as an unsigned byte: 255 where it holds -1. */
  function Digit(b: byte): (d: nat)
    ensures d < 64 || d == 255
  {
    var c := b as nat;
    if c < 64 then Digits0(c) else if c < 80 then Digits1(c) else if c < 96 then Digits2(c)
    else if c < 112 then Digits3(c) else Digits4(c)
  }

  function Digits0(c: nat): (d: nat)
    ensures d < 64 || d == 255
  {
    match c
    case 39 => 56 case 40 => 52 case 48 => 2 case 49 => 1
    case 50 => 0 case 51 => 7 case 52 => 5 case 53 => 6
    case 54 => 3 case 55 => 10 case 56 => 9 case 57 => 11
    case _ => 255
  }

  function Digits1(c: nat): (d: nat)
    ensures d < 64 || d == 255
  {
    match c
    case 65 => 13 case 66 => 14 case 67 => 12 case 68 => 15
    case 69 => 8 case 70 => 4 case 71 => 18 case 72 => 17
    case 73 => 16 case 74 => 23 case 75 => 21 case 76 => 22
    case 77 => 19 case 78 => 26 case 79 => 25
    case _ => 255
  }

  function Digits2(c: nat): (d: nat)
    ensures d < 64 || d == 255
  {
    match c
    case 80 => 27 case 81 => 29 case 82 => 30 case 83 => 28
    case 84 => 31 case 85 => 24 case 86 => 20 case 87 => 34
    case 88 => 33 case 89 => 32 case 90 => 39
    case _ => 255
  }

  function Digits3(c: nat): (d: nat)
    ensures d < 64 || d == 255
  {
    match c
    case 97 => 37 case 98 => 38 case 99 => 35 case 100 => 42
    case 101 => 41 case 102 => 43 case 103 => 45 case 104 => 46
    case 105 => 44 case 106 => 47 case 107 => 40 case 108 => 36
    case 109 => 50 case 110 => 49 case 111 => 48
    case _ => 255
  }

  function Digits4(c: nat): (d: nat)
    ensures d < 64 || d == 255
  {
    match c
    case 112 => 55 case 113 => 53 case 114 => 54 case 115 => 51
    case 116 => 58 case 117 => 57 case 118 => 59 case 119 => 61
    case 120 => 62 case 121 => 60 case 122 => 63
    case _ => 255
  }

  /** The tables are inverse, and no symbol is the padding. */
  lemma {:induction false} TablesInverse(d: nat)
    requires d < 64
    ensures Digit(Symbol(d)) == d && Symbol(d) != TILDE
  {
    if d < 16 {
      Row0(d);
    } else if d < 32 {
      Row1(d);
    } else if d < 48 {
      Row2(d);
    } else {
      Row3(d);
    }
  }

  lemma {:induction false} Row0(d: nat)
    requires d < 16
    ensures Digit(Symbols0(d)) == d && Symbols0(d) != TILDE
  {
    match d
    case 0 => case 1 => case 2 => case 3 => case 4 => case 5 => case 6 => case 7 =>
    case 8 => case 9 => case 10 => case 11 => case 12 => case 13 => case 14 => case _ =>
  }

  lemma {:induction false} Row1(d: nat)
    requires 16 <= d < 32
    ensures Digit(Symbols1(d)) == d && Symbols1(d) != TILDE
  {
    match d
    case 16 => case 17 => case 18 => case 19 => case 20 => case 21 => case 22 => case 23 =>
    case 24 => case 25 => case 26 => case 27 => case 28 => case 29 => case 30 => case _ =>
  }

  lemma {:induction false} Row2(d: nat)
    requires 32 <= d < 48
    ensures Digit(Symbols2(d)) == d && Symbols2(d) != TILDE
  {
    match d
    case 32 => case 33 => case 34 => case 35 => case 36 => case 37 => case 38 => case 39 =>
    case 40 => case 41 => case 42 => case 43 => case 44 => case 45 => case 46 => case _ =>
  }

  lemma {:induction false} Row3(d: nat)
    requires 48 <= d < 64
    ensures Digit(Symbols3(d)) == d && Symbols3(d) != TILDE
  {
    match d
    case 48 => case 49 => case 50 => case 51 => case 52 => case 53 => case 54 => case 55 =>
    case 56 => case 57 => case 58 => case 59 => case 60 => case 61 => case 62 => case _ =>
  }

  /** A pair of tables for 64 symbols. */
  datatype Tables = Tables(symbol: nat -> byte, digit: byte -> nat)

  ghost predicate Inverse(t: Tables) {
    && (forall d: nat :: d < 64 ==> t.digit(t.symbol(d)) == d && t.symbol(d) != TILDE)
    && (forall c: byte :: t.digit(c) < 64 || t.digit(c) == 255)
  }

  const TABLES := Tables(Symbol, Digit)

  lemma {:induction false} TheTables()
    ensures Inverse(TABLES)
  {
    forall d: nat | d < 64 ensures Digit(Symbol(d)) == d && Symbol(d) != TILDE {
      TablesInverse(d);
    }
  }
}
