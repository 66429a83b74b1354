/** Decoding a radix ciphertext into a 256-bit value and encoding the value at
    the width of its type (src/direct_decrypt.rs, src/decrypt.rs). */
module Radix {
  import opened Arith
  import opened Lwe
  import opened Options

  // ----- Types on the wire (src/decrypt.rs) -------------------------------------

  datatype EncryptionType = TBool | U8 | U16 | U32 | U64 | U128 | Address
  {
    function Bits(): (b: nat)
      ensures 1 <= b <= 160
    {
      match this
      case TBool => 1
      case U8 => 8
      case U16 => 16
      case U32 => 32
      case U64 => 64
      case U128 => 128
      case Address => 160
    }

    /** Bytes the value occupies on the wire. */
    function Width(): (w: nat)
      ensures 1 <= w <= 20
    {
      match this
      case TBool | U8 => 1
      case U16 => 2
      case U32 => 4
      case U64 => 8
      case U128 => 16
      case Address => 20
    }

    function Wire(): (r: int)
    {
      match this
      case TBool => 0
      case U8 => 2
      case U16 => 3
      case U32 => 4
      case U64 => 5
      case U128 => 6
      case Address => 7
    }
  }

  function FromWire(v: int): (r: Outcome<EncryptionType>)
  {
    match v
    case 0 => Ok(TBool)
    case 2 => Ok(U8)
    case 3 => Ok(U16)
    case 4 => Ok(U32)
    case 5 => Ok(U64)
    case 6 => Ok(U128)
    case 7 => Ok(Address)
    case _ => Err(UnsupportedType(v))
  }

  /** Wire numbers name types one to one; every other number is refused. */
  lemma WireRoundTrip(v: int, ty: EncryptionType)
    ensures FromWire(v) == Ok(ty) <==> v == ty.Wire()
    ensures FromWire(v).Err? <==> v !in {0, 2, 3, 4, 5, 6, 7}
  {
  }

  /** Every accepted number other than a boolean's doubles the width of the one
      before it, from 8 bits on, up to the address; each type is written in as many
      bytes as its bits fill. */
  lemma WireWidths(v: int, ty: EncryptionType)
    requires FromWire(v) == Ok(ty)
    ensures v == 0 <==> ty == TBool
    ensures ty.Bits() == if v == 0 then 1 else if v == 7 then 160 else Pow2(v + 1)
    ensures 8 * ty.Width() == if ty == TBool then 8 else ty.Bits()
  {
    assert Pow2(3) == 8 && Pow2(4) == 16 && Pow2(5) == 32 && Pow2(6) == 64 && Pow2(7) == 128;
  }

  /** The big-endian bytes of the low 8*n bits of v. */
  function BigEndian(v: nat, n: nat): (bs: seq<nat>)
    ensures |bs| == n
    ensures forall i :: 0 <= i < n ==> bs[i] < 256
  {
    if n == 0 then [] else BigEndian(v / 256, n - 1) + [v % 256]
  }

  function ReadBigEndian(bs: seq<nat>): (r: nat)
  {
    if bs == [] then 0 else ReadBigEndian(bs[..|bs| - 1]) * 256 + bs[|bs| - 1]
  }

  /** `EncryptionType::encode`: the trailing Width() of the value's 32 bytes. */
  function Encode(ty: EncryptionType, v: nat): (bs: seq<nat>)
    ensures |bs| == ty.Width()
  {
    BigEndian(v, 32)[32 - ty.Width()..]
  }

  lemma {:induction false} BigEndianSuffix(v: nat, n: nat, w: nat)
    requires w <= n
    ensures BigEndian(v, n)[n - w..] == BigEndian(v, w)
  {
    if w > 0 {
      BigEndianSuffix(v / 256, n - 1, w - 1);
      assert BigEndian(v, n)[n - w..] == BigEndian(v / 256, n - 1)[n - w..] + [v % 256];
    }
  }

  lemma {:induction false} ReadBigEndianOf(v: nat, n: nat)
    ensures ReadBigEndian(BigEndian(v, n)) == v % Pow2(8 * n)
  {
    if n > 0 {
      var byte: nat :| byte == 8;
      Pow2Byte();
      Pow2Add(byte, 8 * (n - 1));
      ReadBigEndianOf(v / 256, n - 1);
      assert BigEndian(v, n)[..n - 1] == BigEndian(v / 256, n - 1);
      LowDigits(v, 256, Pow2(8 * (n - 1)));
    }
  }

  /** The remainder modulo b * p is the low digit plus b times the next ones. */
  lemma LowDigits(v: nat, b: nat, p: nat)
    requires b > 0 && p > 0
    ensures b * p > 0
    ensures v % (b * p) == (v / b % p) * b + v % b
  {
    MulStrict(0, b, p);
    var q := v / b;
    DivModDef(v, b);
    DivModDef(q, p);
    assert v == (q / p) * (b * p) + ((q % p) * b + v % b) by {
      MulDistrib(b, (q / p) * p, q % p);
      MulAssoc(q / p, p, b);
    }
    DigitBound(v % b, q % p, b, p);
    DivModUnique(v, b * p, q / p, (q % p) * b + v % b);
  }

  /** Reading an encoding back gives the value modulo the wire width, hence the
      value itself exactly when it fits. */
  lemma EncodeReadsBack(ty: EncryptionType, v: nat)
    ensures ReadBigEndian(Encode(ty, v)) == v % Pow2(8 * ty.Width())
    ensures ReadBigEndian(Encode(ty, v)) == v <==> v < Pow2(8 * ty.Width())
  {
    BigEndianSuffix(v, 32, ty.Width());
    ReadBigEndianOf(v, ty.Width());
    if v < Pow2(8 * ty.Width()) {
      ModSelf(v, Pow2(8 * ty.Width()));
    }
  }

  // ----- Bitwise operations on naturals ------------------------------------------

  function BitOr(a: nat, b: nat): (r: nat)
  {
    if a == 0 && b == 0 then 0
    else (if a % 2 == 1 || b % 2 == 1 then 1 else 0) + 2 * BitOr(a / 2, b / 2)
  }

  /** U256 `<<`: bits shifted past 255 are lost. */
  function Shl256(d: nat, s: nat): (r: nat)
    ensures r < TWO256
  {
    d * Pow2(s) % TWO256
  }

  lemma {:induction false} OrZero(v: nat)
    ensures BitOr(v, 0) == v
  {
    if v > 0 {
      OrZero(v / 2);
    }
  }

  /** OR with a number whose low s bits are clear is addition. */
  lemma {:induction false} OrIsSum(v: nat, d: nat, s: nat)
    requires v < Pow2(s)
    ensures BitOr(v, d * Pow2(s)) == v + d * Pow2(s)
  {
    if s == 0 {
      OrZeroLeft(d);
    } else {
      var h := d * Pow2(s - 1);
      assert d * Pow2(s) == 2 * h by { MulAssoc(d, 2, Pow2(s - 1)); MulAssoc(2, d, Pow2(s - 1)); }
      OrIsSum(v / 2, d, s - 1);
    }
  }

  lemma {:induction false} OrZeroLeft(d: nat)
    ensures BitOr(0, d) == d
  {
    if d > 0 {
      OrZeroLeft(d / 2);
    }
  }

  lemma ShiftedSum(v: nat, d: nat, p: nat, room: nat)
    requires v < p && room > 0
    ensures p * room > 0
    ensures (v + d * p) % (p * room) == v + (d % room) * p
  {
    MulStrict(0, p, room);
    var k, low := d / room, d % room;
    DivModDef(d, room);
    assert d * p == k * (p * room) + low * p by {
      MulDistrib(p, k * room, low);
      MulAssoc(k, room, p);
    }
    DigitBound(v, low, p, room);
    DivModUnique(v + d * p, p * room, k, v + low * p);
  }

  /** A shift that stays below bit `width`, up to the digit's high bits. */
  lemma OrStepBelow(v: nat, d: nat, s: nat, width: nat)
    requires v < Pow2(s) && s <= width
    ensures BitOr(v, d * Pow2(s) % Pow2(width)) == (v + d * Pow2(s)) % Pow2(width)
  {
    Pow2Split(width, s);
    ShiftedSum(v, d, Pow2(s), Pow2(width - s));
    ShiftedSum(0, d, Pow2(s), Pow2(width - s));
    OrIsSum(v, d % Pow2(width - s), s);
  }

  /** A shift past the end of the word contributes nothing. */
  lemma OrStepBeyond(v: nat, d: nat, s: nat, width: nat)
    requires v < Pow2(width) && width <= s
    ensures BitOr(v, d * Pow2(s) % Pow2(width)) == (v + d * Pow2(s)) % Pow2(width)
  {
    var k, w := d * Pow2(s - width), Pow2(width);
    Pow2Add(s - width, width);
    assert d * Pow2(s) == k * w by { MulAssoc(d, Pow2(s - width), w); }
    MulDivCancel(k, w);
    ModAddMultiple(v, k, w);
    ModSelf(v, w);
    OrZero(v);
  }

  /** One step of the accumulation loop: the OR of a shifted digit is the sum
      modulo 2^256, whether or not the shift reaches the end of the word. */
  lemma OrStep(v: nat, d: nat, s: nat)
    requires v < Pow2(s)
    ensures BitOr(v % TWO256, Shl256(d, s)) == (v + d * Pow2(s)) % TWO256
  {
    var width: nat :| width == 256;
    Pow2Word(width);
    var w := v % TWO256;
    if s <= width {
      Pow2Monotone(s, width);
      ModSelf(v, TWO256);
      OrStepBelow(v, d, s, width);
    } else {
      OrStepBeyond(w, d, s, width);
      ModSelf(w, TWO256);
      ModAddCong(w, v, d * Pow2(s), TWO256);
    }
  }

  // ----- Powers of two as machine words ------------------------------------------

  predicate IsPowerOfTwo(n: nat)
  {
    n == 1 || (n > 1 && n % 2 == 0 && IsPowerOfTwo(n / 2))
  }

  function TrailingZeros(n: nat): (r: nat)
  {
    if n == 0 then 64 else if n % 2 == 1 then 0 else 1 + TrailingZeros(n / 2)
  }

  lemma {:induction false} PowerOfTwoIsPow2(n: nat)
    requires IsPowerOfTwo(n)
    ensures n == Pow2(TrailingZeros(n))
    ensures n >= 2 ==> TrailingZeros(n) >= 1
  {
    if n > 1 {
      PowerOfTwoIsPow2(n / 2);
    }
  }

  lemma {:induction false} PowerOfTwoIff(n: nat)
    ensures IsPowerOfTwo(n) <==> exists k :: n == Pow2(k)
  {
    if IsPowerOfTwo(n) {
      PowerOfTwoIsPow2(n);
    }
    if k :| n == Pow2(k) {
      Pow2IsPower(k);
    }
  }

  lemma {:induction false} Pow2IsPower(k: nat)
    ensures IsPowerOfTwo(Pow2(k)) && TrailingZeros(Pow2(k)) == k
  {
    if k > 0 {
      Pow2IsPower(k - 1);
      assert Pow2(k) / 2 == Pow2(k - 1);
    }
  }

  function NextMultiple(x: nat, b: nat): (r: nat)
    requires b > 0
  {
    DivCeil(x, b) * b
  }

  lemma NextMultipleFits(x: nat, b: nat)
    requires b > 0
    ensures x <= NextMultiple(x, b) < x + b
    ensures NextMultiple(x, b) % b == 0
    ensures NextMultiple(x, b) == x <==> x % b == 0
  {
    DivModDef(x + b - 1, b);
    DivModUnique(NextMultiple(x, b), b, DivCeil(x, b), 0);
    if x % b == 0 {
      DivModDef(x, b);
      DivModUnique(x + b - 1, b, x / b, b - 1);
    }
  }

  // ----- Digits ---------------------------------------------------------------------

  /** Little-endian positional value. */
  function Positional(ds: seq<nat>, base: nat): (r: nat)
  {
    if ds == [] then 0 else ds[0] + base * Positional(ds[1..], base)
  }

  ghost predicate AreDigits(ds: seq<nat>, base: nat)
  {
    forall i :: 0 <= i < |ds| ==> ds[i] < base
  }

  lemma {:induction false} PositionalBound(ds: seq<nat>, b: nat)
    requires AreDigits(ds, Pow2(b))
    ensures Positional(ds, Pow2(b)) < Pow2(b * |ds|)
  {
    if ds == [] {
      assert b * |ds| == 0;
    } else {
      PositionalBound(ds[1..], b);
      var n := |ds| - 1;
      assert b * |ds| == b + b * n;
      Pow2Add(b, b * n);
      DigitBound(ds[0], Positional(ds[1..], Pow2(b)), Pow2(b), Pow2(b * n));
    }
  }

  lemma {:induction false} PositionalSnoc(ds: seq<nat>, d: nat, b: nat)
    ensures Positional(ds + [d], Pow2(b)) == Positional(ds, Pow2(b)) + d * Pow2(b * |ds|)
  {
    if ds == [] {
      assert b * |ds| == 0;
      assert [] + [d] == [d];
      assert Positional([d][1..], Pow2(b)) == 0;
    } else {
      var rest := ds[1..];
      assert (ds + [d])[1..] == rest + [d];
      assert Positional(ds + [d], Pow2(b)) == ds[0] + Pow2(b) * Positional(rest + [d], Pow2(b));
      assert Positional(ds, Pow2(b)) == ds[0] + Pow2(b) * Positional(rest, Pow2(b));
      PositionalSnoc(rest, d, b);
      hide Positional, Pow2;
      assert b * |ds| == b + b * |rest|;
      Pow2Add(b, b * |rest|);
      SnocAlgebra(ds[0], Pow2(b), Positional(rest, Pow2(b)), d, Pow2(b * |rest|));
    }
  }

  lemma SnocAlgebra(x: int, b: int, r: int, d: int, p: int)
    ensures x + b * (r + d * p) == (x + b * r) + d * (b * p)
  {
    MulDistrib(b, r, d * p);
    MulSwap(b, d, p);
  }

  /** Digit lists of one length with the same value are the same list. */
  lemma {:induction false} PositionalInjective(xs: seq<nat>, ys: seq<nat>, base: nat)
    requires |xs| == |ys| && AreDigits(xs, base) && AreDigits(ys, base)
    requires Positional(xs, base) == Positional(ys, base)
    ensures xs == ys
  {
    if xs != [] {
      var v := Positional(xs, base);
      DivModUnique(v, base, Positional(xs[1..], base), xs[0]);
      DivModUnique(v, base, Positional(ys[1..], base), ys[0]);
      PositionalInjective(xs[1..], ys[1..], base);
      assert xs == [xs[0]] + xs[1..] && ys == [ys[0]] + ys[1..];
    }
  }

  // ----- The radix decoder -------------------------------------------------------------

  /** Blocks packed two digits at a time, and an odd trailing block. */
  datatype RadixCt = RadixCt(paired: seq<Block>, last: Option<Block>)

  /** The two digits of a decoded level. */
  function TwoDigits(m: nat, msg: nat): (r: seq<nat>)
    requires msg > 0
  {
    [m % msg, m / msg % msg]
  }

  /** What every block decodes to. */
  function Levels(key: DirectKey, blocks: seq<Block>): (ls: seq<Outcome<nat>>)
    ensures |ls| == |blocks|
    ensures forall i :: 0 <= i < |ls| ==> ls[i] == DecodeBlock(key, blocks[i])
  {
    seq(|blocks|, i requires 0 <= i < |blocks| => DecodeBlock(key, blocks[i]))
  }

  function LastLevel(key: DirectKey, last: Option<Block>): (r: Option<Outcome<nat>>)
  {
    match last
    case None => None
    case Some(block) => Some(DecodeBlock(key, block))
  }

  /** Two digits for each level; the first failing block decides. */
  function PairedDigits(levels: seq<Outcome<nat>>, msg: nat): (r: Outcome<seq<nat>>)
    requires msg > 0
  {
    if levels == [] then Ok([])
    else
      match PairedDigits(levels[..|levels| - 1], msg)
      case Ok(ds) =>
        (match levels[|levels| - 1]
         case Ok(m) => Ok(ds + TwoDigits(m, msg))
         case Err(e) => Err(e)
         case Panic => Panic)
      case Err(e) => Err(e)
      case Panic => Panic
  }

  function AllDigits(levels: seq<Outcome<nat>>, last: Option<Outcome<nat>>, msg: nat): (r: Outcome<seq<nat>>)
    requires msg > 0
  {
    match PairedDigits(levels, msg)
    case Ok(ds) =>
      (match last
       case None => Ok(ds)
       case Some(Ok(m)) => Ok(ds + [m % msg])
       case Some(Err(e)) => Err(e)
       case Some(Panic) => Panic)
    case Err(e) => Err(e)
    case Panic => Panic
  }

  function Digits(key: DirectKey, ct: RadixCt): (r: Outcome<seq<nat>>)
    requires key.messageModulus > 0
  {
    AllDigits(Levels(key, ct.paired), LastLevel(key, ct.last), key.messageModulus)
  }

  predicate UsableModulus(key: DirectKey)
  {
    IsPowerOfTwo(key.messageModulus) && key.messageModulus >= 2
  }

  /** The meaning of a radix ciphertext: the positional sum of its digits in the
      word, behind the width guard. */
  function RadixMeaning(key: DirectKey, ct: RadixCt, maxBits: nat): (r: Outcome<nat>)
  {
    if !UsableModulus(key) then Err(InvalidMessageModulus(key.messageModulus))
    else
      match Digits(key, ct)
      case Err(e) => Err(e)
      case Panic => Panic
      case Ok(ds) =>
        assert TrailingZeros(key.messageModulus) >= 1 by { PowerOfTwoIsPow2(key.messageModulus); }
        var total := TrailingZeros(key.messageModulus) * |ds|;
        if ds == [] then Err(EmptyRadix)
        else if total >= TWO64 then Err(DigitWidthOverflow)
        else if total > NextMultiple(maxBits, TrailingZeros(key.messageModulus)) then
          Err(WidthExceeded(total, maxBits))
        else Ok(Positional(ds, key.messageModulus) % TWO256)
  }

  /** `decode_radix`: collect the digits, guard the width, OR them together. */
  method DecodeRadix(key: DirectKey, ct: RadixCt, maxBits: nat) returns (r: Outcome<nat>)
    ensures r == RadixMeaning(key, ct, maxBits)
  {
    var msg := key.messageModulus;
    if !IsPowerOfTwo(msg) || msg < 2 {
      return Err(InvalidMessageModulus(msg));
    }
    var bits := TrailingZeros(msg);
    PowerOfTwoIsPow2(msg);
    var collected := CollectDigits(key, ct);
    match collected
    case Err(e) => return Err(e);
    case Panic => return Panic;
    case Ok(digits) =>
      if digits == [] {
        return Err(EmptyRadix);
      }
      var total := bits * |digits|;
      if total >= TWO64 {
        return Err(DigitWidthOverflow);
      }
      if total > NextMultiple(maxBits, bits) {
        return Err(WidthExceeded(total, maxBits));
      }
      var value := AssembleDigits(digits, bits);
      return Ok(value);
  }

  /** The loop that pushes two digits for each paired block, then the digit of
      the unpaired block, stopping at the first block that fails. */
  method CollectDigits(key: DirectKey, ct: RadixCt) returns (r: Outcome<seq<nat>>)
    requires key.messageModulus > 0
    ensures r == Digits(key, ct)
    ensures r.Ok? ==> AreDigits(r.value, key.messageModulus)
  {
    hide DecodeBlock;
    var msg := key.messageModulus;
    ghost var levels := Levels(key, ct.paired);
    var digits: seq<nat> := [];
    var k := 0;
    while k < |ct.paired|
      invariant 0 <= k <= |ct.paired|
      invariant PairedDigits(levels[..k], msg) == Ok(digits)
    {
      assert levels[..k + 1][..k] == levels[..k];
      var level := DecodeBlock(key, ct.paired[k]);
      assert level == levels[k];
      if !level.Ok? {
        FirstFailureDecides(levels, k, msg);
        return if level.Err? then Err(level.error) else Panic;
      }
      digits := digits + TwoDigits(level.value, msg);
      k := k + 1;
    }
    assert levels[..k] == levels;
    var last := LastLevel(key, ct.last);
    DigitsInRange(levels, last, msg);
    if last.Some? {
      match last.value
      case Ok(m) => digits := digits + [m % msg];
      case Err(e) => return Err(e);
      case Panic => return Panic;
    }
    return Ok(digits);
  }

  lemma DigitsInRange(levels: seq<Outcome<nat>>, last: Option<Outcome<nat>>, msg: nat)
    requires msg > 0
    ensures AllDigits(levels, last, msg).Ok? ==> AreDigits(AllDigits(levels, last, msg).value, msg)
  {
    PairedDigitsInRange(levels, msg);
  }

  lemma {:induction false} PairedDigitsInRange(levels: seq<Outcome<nat>>, msg: nat)
    requires msg > 0
    ensures PairedDigits(levels, msg).Ok? ==> AreDigits(PairedDigits(levels, msg).value, msg)
  {
    if levels != [] {
      PairedDigitsInRange(levels[..|levels| - 1], msg);
    }
  }

  /** The accumulation loop `value |= U256::from(*d) << (bits_per_digit * i)`. */
  method AssembleDigits(digits: seq<nat>, bits: nat) returns (value: nat)
    requires AreDigits(digits, Pow2(bits))
    ensures value == Positional(digits, Pow2(bits)) % TWO256
  {
    value := 0;
    assert digits[..0] == [];
    var i := 0;
    while i < |digits|
      invariant 0 <= i <= |digits|
      invariant value == Positional(digits[..i], Pow2(bits)) % TWO256
    {
      AssembleStep(digits, bits, i);
      value := BitOr(value, Shl256(digits[i], bits * i));
      i := i + 1;
    }
    assert digits[..i] == digits;
  }

  lemma AssembleStep(digits: seq<nat>, bits: nat, i: nat)
    requires i < |digits| && AreDigits(digits, Pow2(bits))
    ensures BitOr(Positional(digits[..i], Pow2(bits)) % TWO256, Shl256(digits[i], bits * i))
         == Positional(digits[..i + 1], Pow2(bits)) % TWO256
  {
    PositionalBound(digits[..i], bits);
    OrStep(Positional(digits[..i], Pow2(bits)), digits[i], bits * i);
    assert digits[..i + 1] == digits[..i] + [digits[i]];
    PositionalSnoc(digits[..i], digits[i], bits);
  }

  lemma {:induction false} FirstFailureDecides(levels: seq<Outcome<nat>>, k: nat, msg: nat)
    requires msg > 0
    requires k < |levels| && PairedDigits(levels[..k], msg).Ok? && !levels[k].Ok?
    ensures levels[k].Err? ==> PairedDigits(levels, msg) == Err(levels[k].error)
    ensures levels[k].Panic? ==> PairedDigits(levels, msg) == Panic
  {
    var init := levels[..|levels| - 1];
    if k < |levels| - 1 {
      assert init[..k] == levels[..k];
      FirstFailureDecides(init, k, msg);
    }
  }
}
