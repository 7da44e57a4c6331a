/**
 * `hashColor` (static/script.js:35-46): a CSS colour derived from a user
 * name. JavaScript numbers are modelled as exact integers; `<<` and `>>`
 * go through ToInt32, so only the hash modulo 2^32 reaches the output.
 */
module HashColour {
  import opened Text

  const TwoTo32: int := 0x1_0000_0000

  /** ECMAScript ToInt32 on an integral number. */
  function ToInt32(x: int): (r: int)
    ensures -0x8000_0000 <= r < 0x8000_0000
    ensures r % TwoTo32 == x % TwoTo32
  {
    var m := x % TwoTo32;
    if m >= 0x8000_0000 then m - TwoTo32 else m
  }

  /** `x << 5`: a 32-bit signed value, congruent to `32 x` modulo 2^32. */
  function ShiftLeft5(x: int): (r: int)
    ensures -0x8000_0000 <= r < 0x8000_0000
    ensures r % TwoTo32 == (x * 32) % TwoTo32
  {
    var t := ToInt32(x);
    var k := (t - x) / TwoTo32;
    assert t - x == k * TwoTo32;
    MultipleMod(x * 32, k * 32);
    ToInt32(t * 32)
  }

  function Pow256(i: nat): (p: nat)
    ensures p >= 1
  {
    if i == 0 then 1 else 256 * Pow256(i - 1)
  }

  /**
   * `(x >> (i * 8)) & 0xff`: `>>` is a floor division of the 32-bit value and
   * `& 0xff` keeps its low byte, the non-negative remainder modulo 256.
   */
  function ByteAt(x: int, i: nat): (b: int)
    requires i < 3
    ensures 0 <= b < 256
  {
    (ToInt32(x) / Pow256(i)) % 256
  }

  /** The hash of the code units, reduced modulo 2^32: `h' = unit + 31 * h`. */
  function HashResidue(units: seq<int>): (h: nat)
    ensures h < TwoTo32
  {
    if units == [] then 0
    else (units[|units| - 1] + 31 * HashResidue(units[..|units| - 1])) % TwoTo32
  }

  /** A lower-case hexadecimal digit, as `toString(16)` writes it. */
  predicate IsHexDigit(c: char) {
    '0' <= c <= '9' || 'a' <= c <= 'f'
  }

  function HexDigit(d: nat): (c: char)
    requires d < 16
    ensures IsHexDigit(c)
  {
    if d < 10 then ('0' as int + d) as char else ('a' as int + d - 10) as char
  }

  /** The value of a lower-case hexadecimal digit. */
  function HexValue(c: char): int {
    if '0' <= c <= '9' then c as int - '0' as int else c as int - 'a' as int + 10
  }

  /** `v.toString(16)`. */
  function Hex(v: nat): (s: string)
    ensures |s| >= 1
  {
    if v < 16 then [HexDigit(v)] else Hex(v / 16) + [HexDigit(v % 16)]
  }

  /** `s.padStart(2, '0')`: `s` ends the result, behind as many `'0'`s as make it two long. */
  function PadStart2(s: string): (r: string)
    ensures |r| == if |s| >= 2 then |s| else 2
    ensures r[|r| - |s|..] == s
    ensures forall k :: 0 <= k < |r| - |s| ==> r[k] == '0'
  {
    if |s| >= 2 then s else seq(2 - |s|, _ => '0') + s
  }

  /** A byte is written as exactly two lower-case hex digits, high digit first. */
  lemma HexByte(v: nat)
    requires v < 256
    ensures PadStart2(Hex(v)) == [HexDigit(v / 16), HexDigit(v % 16)]
  {
    if v < 16 {
      assert Hex(v) == [HexDigit(v)];
      assert HexDigit(0) == '0';
    } else {
      assert Hex(v / 16) == [HexDigit(v / 16)];
    }
  }

  /** `'#'` followed by the first `i` bytes of `h`, low byte first. */
  function ColourPrefix(h: nat, i: nat): (c: string)
    requires i <= 3
    ensures |c| == 1 + 2 * i && c[0] == '#'
    ensures forall k :: 1 <= k < |c| ==> IsHexDigit(c[k])
  {
    if i == 0 then "#"
    else
      var v := (h / Pow256(i - 1)) % 256;
      HexByte(v);
      ColourPrefix(h, i - 1) + PadStart2(Hex(v))
  }

  /** The colour `hashColor(str)` returns. */
  function Colour(str: string): (c: string)
    ensures |c| == 7 && c[0] == '#'
    ensures forall k :: 1 <= k < 7 ==> IsHexDigit(c[k])
  {
    ColourPrefix(HashResidue(Utf16Units(str)), 3)
  }

  /** Reading the colour back: its three digit pairs are the hash's bytes 0, 1 and 2. */
  lemma ColourBytes(str: string)
    ensures var c, h := Colour(str), HashResidue(Utf16Units(str));
      && HexValue(c[1]) * 16 + HexValue(c[2]) == h % 256
      && HexValue(c[3]) * 16 + HexValue(c[4]) == h / 256 % 256
      && HexValue(c[5]) * 16 + HexValue(c[6]) == h / 65536 % 256
  {
    var h := HashResidue(Utf16Units(str));
    var p0, p1, p2 := PadStart2(Hex(h % 256)), PadStart2(Hex(h / 256 % 256)), PadStart2(Hex(h / 65536 % 256));
    HexPair(h % 256);
    HexPair(h / 256 % 256);
    HexPair(h / 65536 % 256);
    ColourSpelled(h);
    PairsAt(p0, p1, p2);
  }

  /** The colour of hash `h` spelled out: `'#'` and the padded hex of bytes 0, 1 and 2. */
  lemma ColourSpelled(h: nat)
    ensures ColourPrefix(h, 3) ==
      "#" + PadStart2(Hex(h % 256)) + PadStart2(Hex(h / 256 % 256)) + PadStart2(Hex(h / 65536 % 256))
  {
    assert Pow256(0) == 1 && Pow256(1) == 256 && Pow256(2) == 65536;
    assert ColourPrefix(h, 1) == "#" + PadStart2(Hex(h % 256));
    assert ColourPrefix(h, 2) == ColourPrefix(h, 1) + PadStart2(Hex(h / 256 % 256));
  }

  lemma PairsAt(p0: string, p1: string, p2: string)
    requires |p0| == 2 && |p1| == 2 && |p2| == 2
    ensures var c := "#" + p0 + p1 + p2;
      c[1] == p0[0] && c[2] == p0[1] && c[3] == p1[0] && c[4] == p1[1] && c[5] == p2[0] && c[6] == p2[1]
  {
  }

  /** The two digits written for a byte read back as that byte. */
  lemma HexPair(v: nat)
    requires v < 256
    ensures |PadStart2(Hex(v))| == 2
    ensures HexValue(PadStart2(Hex(v))[0]) * 16 + HexValue(PadStart2(Hex(v))[1]) == v
  {
    HexByte(v);
    HexDigitValue(v / 16);
    HexDigitValue(v % 16);
  }

  lemma HexDigitValue(d: nat)
    requires d < 16
    ensures HexValue(HexDigit(d)) == d
  {
  }

  /** One turn of the first loop agrees with the residue recurrence. */
  lemma HashStep(hash: int, unit: int)
    ensures (unit + (ShiftLeft5(hash) - hash)) % TwoTo32 == (unit + 31 * (hash % TwoTo32)) % TwoTo32
  {
    var t := ToInt32(hash);
    var s := ShiftLeft5(hash);
    var m := TwoTo32;
    // Each value differs from the next by a multiple of 2^32.
    var q1 := (hash - t) / m;
    assert hash - t == q1 * m;
    var q2 := (t * 32 - s) / m;
    assert t * 32 - s == q2 * m;
    var q3 := hash / m;
    assert hash == q3 * m + hash % m;
    var lhs := unit + (s - hash);
    var rhs := unit + 31 * (hash % m);
    assert lhs - rhs == (31 * q3 - 32 * q1 - q2) * m by {
      calc {
        lhs - rhs;
        s - hash - 31 * (hash % m);
        (t * 32 - q2 * m) - hash - 31 * (hash - q3 * m);
        32 * (hash - q1 * m) - q2 * m - 32 * hash + 31 * q3 * m;
        (31 * q3 - 32 * q1 - q2) * m;
      }
    }
    MultipleMod(rhs, 31 * q3 - 32 * q1 - q2);
  }

  lemma MultipleMod(a: int, k: int)
    ensures (a + k * TwoTo32) % TwoTo32 == a % TwoTo32
  {
  }

  /** Only the hash modulo 2^32 decides each byte the second loop reads. */
  lemma ByteAtResidue(hash: int, i: nat)
    requires i < 3
    ensures ByteAt(hash, i) == (hash % TwoTo32) / Pow256(i) % 256
  {
    var r := hash % TwoTo32;
    assert Pow256(0) == 1 && Pow256(1) == 256 && Pow256(2) == 65536;
    if r >= 0x8000_0000 {
      // ToInt32(hash) == r - 2^32, and 2^32 / 256^i is a multiple of 256.
      assert ToInt32(hash) == r - TwoTo32;
      if i == 0 {
        ModShift256(r, -0x100_0000);
      } else if i == 1 {
        DivShift(r, 256, -0x100_0000);
        ModShift256(r / 256, -0x1_0000);
      } else {
        DivShift(r, 65536, -0x1_0000);
        ModShift256(r / 65536, -0x100);
      }
    }
  }

  /** Adding a multiple of 256 leaves the low byte alone. */
  lemma ModShift256(a: int, k: int)
    ensures (a + k * 256) % 256 == a % 256
  {
  }

  /** Adding `k` multiples of `m` adds `k` to the quotient. */
  lemma DivShift(a: int, m: int, k: int)
    requires m == 256 || m == 65536
    ensures (a + k * m) / m == a / m + k
  {
  }

  /** `hashColor`. */
  method HashColor(str: string) returns (colour: string)
    ensures colour == Colour(str)
  {
    var units := Utf16Units(str);
    var hash := 0;
    for k := 0 to |units|
      invariant hash % TwoTo32 == HashResidue(units[..k])
    {
      assert units[..k + 1][..k] == units[..k];
      HashStep(hash, units[k]);
      hash := units[k] + (ShiftLeft5(hash) - hash);
    }
    assert units[..|units|] == units;
    colour := "#";
    for i := 0 to 3
      invariant colour == ColourPrefix(HashResidue(units), i)
    {
      ByteAtResidue(hash, i);
      var value := ByteAt(hash, i);
      colour := colour + PadStart2(Hex(value));
    }
  }
}
