/** Words of 32 bits and the bytes they are loaded from and stored to, low byte first. */
module BitWords {
  import opened Bytes

  /** A small number as a word, binary digit by binary digit. */
  function Wide(n: nat): bv32 {
    if n == 0 then 0 else (Wide(n / 2) << 1) | (if n % 2 == 1 then 1 else 0)
  }

  /** Four bytes shifted into their places. */
  function Little(a: byte, b: byte, c: byte, d: byte): bv32 {
    (Wide(d) << 24) | (Wide(c) << 16) | (Wide(b) << 8) | Wide(a)
  }

  function Store32(x: bv32): (bs: seq<byte>)
    ensures |bs| == 4
  {
    [(x & 255) as int, ((x >> 8) & 255) as int, ((x >> 16) & 255) as int, ((x >> 24) & 255) as int]
  }

  function Value(x: bv8): nat {
    x as int
  }

  lemma Doubled(x: bv8, odd: bool) returns (y: bv8)
    requires Value(x) < 128
    ensures Value(y) == 2 * Value(x) + (if odd then 1 else 0)
    ensures y as bv32 == (x as bv32 << 1) | (if odd then 1 else 0)
  {
    y := (x << 1) | (if odd then 1 else 0);
  }

  lemma Zero()
    ensures Value(0) == 0
  {
  }

  /** A byte as 8 bits. */
  lemma {:induction false} Bits(b: nat) returns (x: bv8)
    requires b < 256
    ensures Value(x) == b && Wide(b) == x as bv32
  {
    hide Value;
    if b == 0 {
      x := 0;
      Zero();
    } else {
      x := Bits(b / 2);
      x := Doubled(x, b % 2 == 1);
    }
  }

  lemma FourBytes(a: bv8, b: bv8, c: bv8, d: bv8)
    ensures ((d as bv32 << 24) | (c as bv32 << 16) | (b as bv32 << 8) | a as bv32) as int
         == Value(a) + 0x100 * (Value(b) + 0x100 * (Value(c) + 0x100 * Value(d)))
  {
  }

  /** They are a little-endian word. */
  lemma LittleValue(a: byte, b: byte, c: byte, d: byte)
    ensures Little(a, b, c, d) as int == a as int + 0x100 * (b as int + 0x100 * (c as int + 0x100 * d as int))
  {
    hide Wide, Value;
    var p := Bits(a);
    var q := Bits(b);
    var r := Bits(c);
    var s := Bits(d);
    FourBytes(p, q, r, s);
  }

  lemma Narrow(y: bv32) returns (x: bv8)
    requires y < 256
    ensures y == x as bv32 && y as int == Value(x)
  {
    x := y as bv8;
  }

  function Low(x: bv32): (y: bv32)
    ensures y < 256
  {
    x & 255
  }

  function Placed(a: bv32, b: bv32, c: bv32, d: bv32): bv32 {
    (d << 24) | (c << 16) | (b << 8) | a
  }

  function Number(x: bv32): nat {
    x as int
  }

  lemma Quarters(x: bv32)
    ensures x == Placed(Low(x), Low(x >> 8), Low(x >> 16), Low(x >> 24))
  {
  }

  lemma PlacedNumber(a: bv32, b: bv32, c: bv32, d: bv32)
    requires a < 256 && b < 256 && c < 256 && d < 256
    ensures Number(Placed(a, b, c, d)) == Number(a) + 0x100 * (Number(b) + 0x100 * (Number(c) + 0x100 * Number(d)))
  {
    hide Value;
    var p := Narrow(a);
    var q := Narrow(b);
    var r := Narrow(c);
    var s := Narrow(d);
    FourBytes(p, q, r, s);
  }

  lemma SameLow(a: byte, high: nat, a': byte, high': nat)
    requires a as int + 0x100 * high == a' as int + 0x100 * high'
    ensures a == a' && high == high'
  {
  }

  lemma WordInjective(s: seq<byte>, t: seq<byte>)
    requires |s| == |t| == 4 && Word(s, 0) == Word(t, 0)
    ensures s == t
  {
    SameLow(s[0], s[1] as int + 0x100 * (s[2] as int + 0x100 * s[3] as int),
            t[0], t[1] as int + 0x100 * (t[2] as int + 0x100 * t[3] as int));
    SameLow(s[1], s[2] as int + 0x100 * s[3] as int, t[1], t[2] as int + 0x100 * t[3] as int);
    SameLow(s[2], s[3], t[2], t[3]);
  }

  lemma StoredWord(x: bv32)
    ensures Word(Store32(x), 0)
         == Number(Low(x)) + 0x100 * (Number(Low(x >> 8)) + 0x100 * (Number(Low(x >> 16)) + 0x100 * Number(Low(x >> 24))))
  {
  }

  lemma NumberRange(x: bv32)
    ensures Number(x) == x as int < WORD_LIMIT
  {
  }

  /** A word is stored as its little-endian bytes. */
  lemma StoreIsWord(x: bv32)
    ensures 0 <= x as int < WORD_LIMIT && Store32(x) == WordBytes(x as int)
  {
    hide Store32, WordBytes, Word, Low, Placed, Number;
    Quarters(x);
    PlacedNumber(Low(x), Low(x >> 8), Low(x >> 16), Low(x >> 24));
    StoredWord(x);
    NumberRange(x);
    WordInjective(Store32(x), WordBytes(x as int));
  }
}
