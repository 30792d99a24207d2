/** The proof-of-work check and its single-use challenge store (internal/pow/pow.go). */
module ProofOfWork {

  // ---- The leading-zero-bits test ----

  function Pow2(n: nat): (p: nat)
    ensures p > 0
  {
    if n == 0 then 1 else 2 * Pow2(n - 1)
  }

  /** A hash read as one big-endian number. */
  function BigEndian(hash: seq<bv8>): nat {
    if hash == [] then 0 else hash[0] as nat * Pow2(8 * (|hash| - 1)) + BigEndian(hash[1..])
  }

  /** The target: a hash of this length passes when its value is below it. */
  function Target(length: nat, difficulty: int): nat {
    Pow2(8 * length - if difficulty < 0 then 0 else if difficulty < 8 * length then difficulty else 8 * length)
  }

  predicate MeetsTarget(hash: seq<bv8>, difficulty: int) {
    BigEndian(hash) < Target(|hash|, difficulty)
  }

  lemma {:induction false} Pow2Add(a: nat, b: nat)
    ensures Pow2(a + b) == Pow2(a) * Pow2(b)
  {
    if a > 0 {
      Pow2Add(a - 1, b);
    }
  }

  lemma HeadBound(head: nat, tail: nat, unit: nat, bound: nat)
    requires tail < unit
    ensures head * unit + tail < bound * unit <==> head < bound
  {
    if head < bound {
      assert (head + 1) * unit <= bound * unit;
    } else {
      assert head * unit >= bound * unit;
    }
  }

  lemma {:induction false} BigEndianBound(hash: seq<bv8>)
    ensures BigEndian(hash) < Pow2(8 * |hash|)
  {
    if hash != [] {
      var unit := Pow2(8 * (|hash| - 1));
      BigEndianBound(hash[1..]);
      Pow2Add(8, 8 * (|hash| - 1));
      assert Pow2(8) == 256;
      HeadBound(hash[0] as nat, BigEndian(hash[1..]), unit, 256);
    }
  }

  /** The mask keeps exactly the bits that must be zero. */
  lemma MaskBound(b: bv8, remaining: nat)
    requires 0 < remaining < 8
    ensures b & (0xff << (8 - remaining)) == 0 <==> b as nat < Pow2(8 - remaining)
  {
    assert Pow2(1) == 2 && Pow2(2) == 4 && Pow2(3) == 8 && Pow2(4) == 16;
    assert Pow2(5) == 32 && Pow2(6) == 64 && Pow2(7) == 128;
    match remaining
    case 1 => assert b & 0x80 == 0 <==> b < 128;
    case 2 => assert b & 0xc0 == 0 <==> b < 64;
    case 3 => assert b & 0xe0 == 0 <==> b < 32;
    case 4 => assert b & 0xf0 == 0 <==> b < 16;
    case 5 => assert b & 0xf8 == 0 <==> b < 8;
    case 6 => assert b & 0xfc == 0 <==> b < 4;
    case 7 => assert b & 0xfe == 0 <==> b < 2;
  }

  lemma {:induction false} PowMonotone(a: nat, b: nat)
    requires a <= b
    ensures Pow2(a) <= Pow2(b)
  {
    if a < b {
      PowMonotone(a, b - 1);
    }
  }

  /** A whole byte of required zeros. */
  lemma WholeByte(hash: seq<bv8>, remaining: int)
    requires hash != [] && remaining >= 8
    ensures MeetsTarget(hash, remaining) <==> hash[0] == 0 && MeetsTarget(hash[1..], remaining - 8)
  {
    var unit := Pow2(8 * (|hash| - 1));
    BigEndianBound(hash[1..]);
    HeadBound(hash[0] as nat, BigEndian(hash[1..]), unit, 1);
    PowMonotone(8 * |hash| - if remaining < 8 * |hash| then remaining else 8 * |hash|, 8 * (|hash| - 1));
  }

  /** The last, partial byte. */
  lemma PartialByte(hash: seq<bv8>, remaining: int)
    requires hash != [] && 0 < remaining < 8
    ensures MeetsTarget(hash, remaining) <==> hash[0] & (0xff << (8 - remaining)) == 0
  {
    var unit := Pow2(8 * (|hash| - 1));
    BigEndianBound(hash[1..]);
    Pow2Add(8 - remaining, 8 * (|hash| - 1));
    HeadBound(hash[0] as nat, BigEndian(hash[1..]), unit, Pow2(8 - remaining));
    MaskBound(hash[0], remaining);
  }

  method HasLeadingZeroBits(hash: seq<bv8>, difficulty: int) returns (ok: bool)
    ensures ok <==> BigEndian(hash) < Target(|hash|, difficulty)
  {
    var remaining := difficulty;
    var i := 0;
    while i < |hash| && remaining > 0
      invariant 0 <= i <= |hash|
      invariant MeetsTarget(hash, difficulty) <==> MeetsTarget(hash[i..], remaining)
    {
      assert hash[i..][1..] == hash[i + 1..];
      if remaining >= 8 {
        WholeByte(hash[i..], remaining);
        if hash[i] != 0 {
          return false;
        }
        remaining := remaining - 8;
      } else {
        PartialByte(hash[i..], remaining);
        var mask: bv8 := 0xff << (8 - remaining);
        if hash[i] & mask != 0 {
          return false;
        }
        remaining := 0;
        BigEndianBound(hash[i + 1..]);
      }
      i := i + 1;
    }
    BigEndianBound(hash[i..]);
    return true;
  }
}
