/**
 * MAC address generation and the bit-clearing helper behind it
 * (`generate_mac_address` and `unset_bit` in src/interface/interface.rs).
 *
 * The six random octets are an input: `rng.gen_range(0..255)` draws each
 * from 0 to 254, which is what `Draw` admits.
 */
module Mac {
  import opened Wrappers
  import Network

  /** One value of `gen_range(0..255)` on `u8`: the upper bound is excluded. */
  type Draw = b: bv8 | b < 255

  /** The six draws of one call. */
  type MacDraw = s: seq<Draw> | |s| == 6 witness [0, 0, 0, 0, 0, 0]

  /** An octet as a number. */
  type Octet = n: nat | n < 256

  const BitRangeError := "BitNumber was not in the valid range! (BitNumber = (min)0 - (max)7)"

  /** Whether bit `k` (0 is the least significant) of `b` is set. */
  predicate BitSet(b: bv8, k: nat)
    requires k < 8
  {
    b & (1 << k) != 0
  }

  /**
   * `unset_bit`: `b` with bit `bitNumber` cleared when 0 <= bitNumber <= 7,
   * an error otherwise.
   */
  function UnsetBit(b: bv8, bitNumber: int): (r: Result<bv8, string>)
    ensures r.Ok? <==> 0 <= bitNumber < 8
    ensures r.Err? ==> r.error == BitRangeError
    ensures r.Ok? ==> !BitSet(r.value, bitNumber)
    ensures r.Ok? ==> forall k: nat :: k < 8 && k != bitNumber ==> (BitSet(r.value, k) <==> BitSet(b, k))
    ensures r.Ok? ==> r.value <= b
  {
    if bitNumber < 8 && bitNumber > -1 then
      ClearTarget(b, bitNumber);
      ClearOthers(b, bitNumber);
      Ok(b & !(1 << bitNumber))
    else Err(BitRangeError)
  }

  /** Masking out bit `n` clears it and cannot increase the octet. */
  lemma ClearTarget(b: bv8, n: nat)
    requires n < 8
    ensures !BitSet(b & !(1 << n), n)
    ensures b & !(1 << n) <= b
  {
  }

  /** Masking out bit `n` leaves every other bit as it was. */
  lemma ClearOthers(b: bv8, n: nat)
    requires n < 8
    ensures forall k: nat :: k < 8 && k != n ==> (BitSet(b & !(1 << n), k) <==> BitSet(b, k))
  {
  }

  /** Clearing a bit twice is clearing it once. */
  lemma UnsetBitIdempotent(b: bv8, n: int)
    requires 0 <= n < 8
    ensures UnsetBit(UnsetBit(b, n).value, n) == UnsetBit(b, n)
  {
  }

  /**
   * Arithmetic reading of `unset_bit`: the number drops by 2^n exactly when
   * bit n was set, and is otherwise unchanged.
   */
  lemma UnsetBitArithmetic(b: bv8, n: nat)
    requires n < 8
    ensures UnsetBit(b, n).value as int == b as int - (if BitSet(b, n) then Network.Pow2(n) else 0)
  {
    var mask: bv8 := 1 << n;
    assert (b & !mask) as int == b as int - ((b & mask) as int);
    assert b & mask == 0 || b & mask == mask;
    MaskValue(n);
  }

  /** The single-bit mask `1 << n` is the number 2^n. */
  lemma MaskValue(n: nat)
    requires n < 8
    ensures ((1 as bv8) << n) as int == Network.Pow2(n)
  {
    if n > 0 {
      MaskValue(n - 1);
      assert (1 as bv8) << n == ((1 as bv8) << (n - 1)) * 2;
    }
  }

  /** The upper-case hex digit of `v` (`{:X}` formatting). */
  function UpperDigit(v: nat): char
    requires v < 16
  {
    if v < 10 then ('0' as int + v) as char else ('A' as int + v - 10) as char
  }

  /** The lower-case hex digit of `v`. */
  function LowerDigit(v: nat): char
    requires v < 16
  {
    if v < 10 then ('0' as int + v) as char else ('a' as int + v - 10) as char
  }

  predicate IsLowerHex(c: char) {
    '0' <= c <= '9' || 'a' <= c <= 'f'
  }

  /** `format!("{:02X}", n)`: the two upper-case hex digits of an octet. */
  function HexUpper(n: Octet): (s: string)
    ensures |s| == 2
  {
    [UpperDigit(n / 16), UpperDigit(n % 16)]
  }

  /** `to_lowercase` on one ASCII character. */
  function LowerChar(c: char): char {
    if 'A' <= c <= 'Z' then (c as int + 32) as char else c
  }

  /** `to_lowercase` on ASCII text: same length, each letter lowered. */
  function ToLower(s: string): (r: string)
    ensures |r| == |s|
    ensures forall i :: 0 <= i < |s| ==> r[i] == LowerChar(s[i])
  {
    seq(|s|, i requires 0 <= i < |s| => LowerChar(s[i]))
  }

  /**
   * The octets a generated address carries: the first draw with its
   * multicast bit (bit 0) cleared by `unset_bit(number, 0)`, the other
   * five exactly as drawn.
   */
  function MacOctets(d: MacDraw): (o: seq<Octet>)
    ensures |o| == 6
    ensures o[0] % 2 == 0
    ensures o[0] == d[0] as int - d[0] as int % 2
    ensures forall i :: 1 <= i < 6 ==> o[i] == d[i] as int
    ensures forall i :: 0 <= i < 6 ==> o[i] < 255
  {
    EvenAfterUnset(d[0]);
    [UnsetBit(d[0], 0).value as int] + seq(5, i requires 0 <= i < 5 => d[i + 1] as int)
  }

  lemma EvenAfterUnset(b: bv8)
    ensures UnsetBit(b, 0).value as int == b as int - b as int % 2
  {
    UnsetBitArithmetic(b, 0);
    LowBit(b);
  }

  /** Bit 0 of an octet is its parity. */
  lemma LowBit(b: bv8)
    ensures BitSet(b, 0) <==> b as int % 2 == 1
  {
    var low := b & 1;
    assert low == 0 || low == 1;
    assert b as int == ((b >> 1) as int) * 2 + low as int;
  }

  /**
   * The text the formatting loop pushes for the octets `os`: two hex digits
   * each, with a ':' before every octet except the very first.
   */
  function Render(os: seq<Octet>, first: bool): string {
    if os == [] then ""
    else (if first then "" else ":") + HexUpper(os[0]) + Render(os[1..], false)
  }

  /**
   * `generate_mac_address`, with the six draws as input: 17 characters,
   * lower-case hex digit pairs separated by ':' at positions 2, 5, 8, 11, 14.
   */
  function GenerateMac(d: MacDraw): (mac: string)
    ensures |mac| == 17
    ensures forall p :: 0 <= p < 17 ==> (mac[p] == ':' <==> p % 3 == 2)
    ensures forall p :: 0 <= p < 17 && p % 3 != 2 ==> IsLowerHex(mac[p])
  {
    var os := MacOctets(d);
    RenderChars(os);
    var mac := ToLower(Render(os, true));
    forall p | 0 <= p < 17
      ensures (mac[p] == ':' <==> p % 3 == 2)
      ensures p % 3 != 2 ==> IsLowerHex(mac[p])
    {
      if p % 3 != 2 {
        DigitLowers(Nibble(os, p));
      }
    }
    mac
  }

  /** The hex digit value written at a digit position `p` of the address. */
  function Nibble(os: seq<Octet>, p: nat): nat
    requires p < 3 * |os| && p % 3 != 2
  {
    if p % 3 == 0 then os[p / 3] / 16 else os[p / 3] % 16
  }

  /** The upper-case digit or separator the loop writes at position `p`. */
  function Expected(os: seq<Octet>, p: nat): char
    requires p < 3 * |os|
  {
    if p % 3 == 2 then ':' else UpperDigit(Nibble(os, p))
  }

  lemma {:induction false} RenderChars(os: seq<Octet>)
    requires |os| > 0
    ensures |Render(os, true)| == 3 * |os| - 1
    ensures forall p :: 0 <= p < 3 * |os| - 1 ==> Render(os, true)[p] == Expected(os, p)
  {
    TailChars(os, 1);
    var s := Render(os, true);
    var t := Render(os[1..], false);
    assert s == HexUpper(os[0]) + t;
    assert s[0] == Expected(os, 0);
    assert s[1] == Expected(os, 1);
    forall p | 2 <= p < 3 * |os| - 1 ensures s[p] == Expected(os, p) {
      assert s[p] == t[p - 2];
      assert t[p - 2] == Expected(os, 3 * 1 + (p - 2) - 1);
    }
  }

  /** The suffix from octet `i` on renders every octet behind a ':'. */
  lemma {:induction false} TailChars(os: seq<Octet>, i: nat)
    requires 1 <= i <= |os|
    ensures |Render(os[i..], false)| == 3 * (|os| - i)
    ensures forall j :: 0 <= j < 3 * (|os| - i) ==>
      Render(os[i..], false)[j] == Expected(os, 3 * i + j - 1)
    decreases |os| - i
  {
    if i < |os| {
      TailChars(os, i + 1);
      var s := Render(os[i..], false);
      var t := Render(os[i + 1..], false);
      assert os[i..][1..] == os[i + 1..];
      assert s == ":" + HexUpper(os[i]) + t;
      forall j | 0 <= j < 3 * (|os| - i)
        ensures s[j] == Expected(os, 3 * i + j - 1)
      {
        if j >= 3 {
          assert s[j] == t[j - 3];
        } else if j > 0 {
          assert (3 * i + j - 1) / 3 == i;
        }
      }
    }
  }

  /** The value of a lower-case hex digit. */
  function DigitValue(c: char): (v: nat)
    requires IsLowerHex(c)
    ensures v < 16 && LowerDigit(v) == c
  {
    if '0' <= c <= '9' then c as int - '0' as int else c as int - 'a' as int + 10
  }

  /** Reads a colon-separated lower-case MAC address back into its six octets. */
  function ParseMac(mac: string): Option<seq<nat>> {
    if && |mac| == 17
       && (forall p :: 0 <= p < 17 ==> (mac[p] == ':' <==> p % 3 == 2))
       && (forall p :: 0 <= p < 17 && p % 3 != 2 ==> IsLowerHex(mac[p]))
    then Some(seq(6, k requires 0 <= k < 6 => DigitValue(mac[3 * k]) * 16 + DigitValue(mac[3 * k + 1])))
    else None
  }

  /** The text of a generated MAC reads back as exactly the octets it was formatted from. */
  lemma {:induction false} GenerateMacRoundTrip(d: MacDraw)
    ensures ParseMac(GenerateMac(d)) == Some(MacOctets(d))
  {
    var mac := GenerateMac(d);
    var os := MacOctets(d);
    var octets := seq(6, k requires 0 <= k < 6 => DigitValue(mac[3 * k]) * 16 + DigitValue(mac[3 * k + 1]));
    assert ParseMac(mac) == Some(octets);
    forall k | 0 <= k < 6
      ensures octets[k] == os[k]
    {
      ReadOctet(d, k);
    }
    assert octets == os;
  }

  /** The characters of a generated MAC: the loop's output, lower-cased. */
  lemma MacChars(d: MacDraw)
    ensures forall p :: 0 <= p < 17 ==> GenerateMac(d)[p] == LowerChar(Expected(MacOctets(d), p))
  {
    RenderChars(MacOctets(d));
  }

  /** The two digits at positions 3k and 3k + 1 read back as octet k. */
  lemma ReadOctet(d: MacDraw, k: nat)
    requires k < 6
    ensures DigitValue(GenerateMac(d)[3 * k]) * 16 + DigitValue(GenerateMac(d)[3 * k + 1]) == MacOctets(d)[k]
  {
    var os := MacOctets(d);
    MacChars(d);
    assert (3 * k) / 3 == k && (3 * k + 1) / 3 == k;
    assert Nibble(os, 3 * k) == os[k] / 16;
    assert Nibble(os, 3 * k + 1) == os[k] % 16;
    DigitLowers(os[k] / 16);
    DigitLowers(os[k] % 16);
  }

  /** Lower-casing an upper-case hex digit gives the lower-case digit of the same value. */
  lemma DigitLowers(v: nat)
    requires v < 16
    ensures LowerChar(UpperDigit(v)) == LowerDigit(v)
    ensures DigitValue(LowerDigit(v)) == v
  {
  }
}
