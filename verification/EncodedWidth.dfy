/** Whether a decrypted value survives being written out at its type's width
    (src/direct_decrypt.rs, src/decrypt.rs): the width guard rounds up to whole
    digits, the encoding does not. */
module EncodedWidth {
  import opened Arith
  import opened Lwe
  import opened Options
  import opened Radix
  import opened RadixRoundTrip

  /** What decrypts from the stored bytes is written out whole. */
  ghost predicate EncodedWhole(key: DirectKey, ty: EncryptionType, stored: Stored)
    requires key.messageModulus > 0
  {
    var r := DecryptCompressed(key, ty, stored);
    r.Ok? ==> ReadBigEndian(Encode(ty, r.value)) == r.value
  }

  // ----- The widest value of a type -----------------------------------------------

  /** The largest digits a ciphertext of n digits can decode to: high digits stay
      below twice the carry modulus. */
  function TopDigits(n: nat, msg: nat, carry: nat): (ds: seq<nat>)
    requires msg > 0 && carry > 0
    ensures |ds| == n
  {
    seq(n, i requires 0 <= i < n => if i % 2 == 1 && 2 * carry < msg then 2 * carry - 1 else msg - 1)
  }

  /** As many digits as the width guard of the type lets through. */
  function Widest(key: DirectKey, ty: EncryptionType): (v: nat)
    requires UsableKey(key) && TrailingZeros(key.messageModulus) > 0
  {
    KeyModuli(key);
    Positional(TopDigits(DivCeil(ty.Bits(), TrailingZeros(key.messageModulus)), key.messageModulus, key.carryModulus),
               key.messageModulus)
  }

  lemma KeyModuli(key: DirectKey)
    requires UsableKey(key)
    ensures key.messageModulus > 0 && key.carryModulus > 0
  {
    assert key.carryModulus == 0 ==> ExactSpace(key) == 0;
  }

  ghost predicate DigitsBelow(xs: seq<nat>, ys: seq<nat>)
  {
    |xs| <= |ys| && forall i :: 0 <= i < |xs| ==> xs[i] <= ys[i]
  }

  lemma {:induction false} PositionalMonotone(xs: seq<nat>, ys: seq<nat>, base: nat)
    requires DigitsBelow(xs, ys)
    ensures Positional(xs, base) <= Positional(ys, base)
  {
    if xs != [] {
      var p, q := Positional(xs[1..], base), Positional(ys[1..], base);
      PositionalMonotone(xs[1..], ys[1..], base);
      MulMonotone(p, q, base);
      assert base * p <= base * q;
    }
  }

  // ----- No ciphertext decodes to more ---------------------------------------------------

  /** The second digit of a level below 2 * msg * carry is below 2 * carry. */
  lemma HighDigitBound(m: nat, msg: nat, carry: nat)
    requires msg > 0 && m < 2 * msg * carry
    ensures m / msg % msg < 2 * carry
  {
    assert 2 * msg * carry == (2 * carry) * msg by { MulAssoc(2, msg, carry); MulAssoc(2, carry, msg); }
    DivBound(m, msg, 2 * carry);
    DivModDef(m / msg, msg);
    if m / msg < msg {
      ModSelf(m / msg, msg);
    }
  }

  lemma {:induction false} PairedDigitsHigh(levels: seq<Outcome<nat>>, msg: nat, carry: nat)
    requires msg > 0 && PairedDigits(levels, msg).Ok?
    requires forall i :: 0 <= i < |levels| && levels[i].Ok? ==> levels[i].value < 2 * msg * carry
    ensures HighDigitsFit(PairedDigits(levels, msg).value, carry)
  {
    if levels != [] {
      var last := levels[|levels| - 1];
      PairedDigitsHigh(levels[..|levels| - 1], msg, carry);
      PairedCount(levels[..|levels| - 1], msg);
      HighDigitBound(last.value, msg, carry);
    }
  }

  /** What any ciphertext decodes to, digit by digit. */
  lemma DecodedBelow(key: DirectKey, ct: RadixCt)
    requires UsableKey(key) && Digits(key, ct).Ok?
    ensures key.carryModulus > 0
    ensures var ds := Digits(key, ct).value;
            DigitsBelow(ds, TopDigits(|ds|, key.messageModulus, key.carryModulus))
  {
    KeyModuli(key);
    LevelsBelow(key, ct.paired);
    assert Digits(key, ct) == AllDigits(Levels(key, ct.paired), LastLevel(key, ct.last), key.messageModulus);
    hide *;
    AllDigitsBelow(Levels(key, ct.paired), LastLevel(key, ct.last), key.messageModulus, key.carryModulus);
  }

  lemma LevelsBelow(key: DirectKey, blocks: seq<Block>)
    ensures forall i :: 0 <= i < |blocks| && Levels(key, blocks)[i].Ok? ==>
              Levels(key, blocks)[i].value < 2 * key.messageModulus * key.carryModulus
  {
    hide DecodeBlock;
    forall i | 0 <= i < |blocks| && Levels(key, blocks)[i].Ok?
      ensures Levels(key, blocks)[i].value < 2 * key.messageModulus * key.carryModulus
    {
      DecodeTotal(key, blocks[i]);
    }
  }

  lemma AllDigitsBelow(levels: seq<Outcome<nat>>, last: Option<Outcome<nat>>, msg: nat, carry: nat)
    requires msg > 0 && carry > 0 && AllDigits(levels, last, msg).Ok?
    requires forall i :: 0 <= i < |levels| && levels[i].Ok? ==> levels[i].value < 2 * msg * carry
    ensures var ds := AllDigits(levels, last, msg).value; DigitsBelow(ds, TopDigits(|ds|, msg, carry))
  {
    PairedDigitsHigh(levels, msg, carry);
    PairedCount(levels, msg);
    DigitsInRange(levels, last, msg);
    hide PairedDigits;
  }

  /** The digits behind a decrypted value: no more of them than the guard lets
      through, none larger than the largest, and no smaller a sum. */
  lemma DecodedValue(key: DirectKey, ct: RadixCt, ty: EncryptionType) returns (ds: seq<nat>)
    requires UsableKey(key) && RadixMeaning(key, ct, ty.Bits()).Ok?
    ensures key.messageModulus > 0 && key.carryModulus > 0 && TrailingZeros(key.messageModulus) > 0
    ensures RadixMeaning(key, ct, ty.Bits()).value <= Positional(ds, key.messageModulus)
    ensures |ds| <= DivCeil(ty.Bits(), TrailingZeros(key.messageModulus))
    ensures DigitsBelow(ds, TopDigits(|ds|, key.messageModulus, key.carryModulus))
  {
    var bits := TrailingZeros(key.messageModulus);
    ds := Digits(key, ct).value;
    assert RadixMeaning(key, ct, ty.Bits()).value == Positional(ds, key.messageModulus) % TWO256;
    assert bits * |ds| <= DivCeil(ty.Bits(), bits) * bits;
    assert UsableModulus(key);
    hide *;
    UsableBits(key);
    DecodedBelow(key, ct);
    KeyModuli(key);
    FewerDigits(bits, |ds|, DivCeil(ty.Bits(), bits));
    DivModDef(Positional(ds, key.messageModulus), TWO256);
    ModBelow(Positional(ds, key.messageModulus), TWO256);
  }

  lemma UsableBits(key: DirectKey)
    requires UsableModulus(key)
    ensures TrailingZeros(key.messageModulus) > 0
  {
    DigitBitsOfWord(key.messageModulus);
  }

  lemma ModBelow(v: nat, d: nat)
    requires d > 0
    ensures v % d <= v
  {
    DivModDef(v, d);
    MulMonotone(0, v / d, d);
  }

  lemma LongerTop(ds: seq<nat>, n: nat, msg: nat, carry: nat)
    requires msg > 0 && carry > 0 && |ds| <= n && DigitsBelow(ds, TopDigits(|ds|, msg, carry))
    ensures DigitsBelow(ds, TopDigits(n, msg, carry))
  {
  }

  lemma WidestIs(key: DirectKey, ty: EncryptionType)
    requires UsableKey(key) && TrailingZeros(key.messageModulus) > 0 && key.messageModulus > 0 && key.carryModulus > 0
    ensures Widest(key, ty)
         == Positional(TopDigits(DivCeil(ty.Bits(), TrailingZeros(key.messageModulus)), key.messageModulus, key.carryModulus),
                       key.messageModulus)
  {
    hide UsableKey, TrailingZeros, Positional, TopDigits;
  }

  lemma DecryptedBelowWidest(key: DirectKey, ct: RadixCt, ty: EncryptionType)
    requires UsableKey(key) && RadixMeaning(key, ct, ty.Bits()).Ok?
    ensures TrailingZeros(key.messageModulus) > 0
    ensures RadixMeaning(key, ct, ty.Bits()).value <= Widest(key, ty)
  {
    hide *;
    var ds := DecodedValue(key, ct, ty);
    var n := DivCeil(ty.Bits(), TrailingZeros(key.messageModulus));
    LongerTop(ds, n, key.messageModulus, key.carryModulus);
    PositionalMonotone(ds, TopDigits(n, key.messageModulus, key.carryModulus), key.messageModulus);
    WidestIs(key, ty);
  }

  lemma FewerDigits(bits: nat, count: nat, n: nat)
    requires bits > 0 && bits * count <= n * bits
    ensures count <= n
  {
    if count > n {
      MulStrict(n, count, bits);
    }
  }

  // ----- And one decodes to exactly that ---------------------------------------------------

  lemma TopIsAccepted(key: DirectKey, ty: EncryptionType)
    requires UsableKey(key) && TrailingZeros(key.messageModulus) > 0
    ensures key.carryModulus > 0 && TrailingZeros(key.messageModulus) < 64
    ensures var bits := TrailingZeros(key.messageModulus);
            var top := TopDigits(DivCeil(ty.Bits(), bits), key.messageModulus, key.carryModulus);
            && AreDigits(top, key.messageModulus) && HighDigitsFit(top, key.carryModulus)
            && Accepted(|top|, bits, ty) && bits * |top| < TWO64
  {
    var bits := TrailingZeros(key.messageModulus);
    DigitBitsOfWord(key.messageModulus);
    KeyModuli(key);
    NextMultipleFits(ty.Bits(), bits);
    assert NextMultiple(ty.Bits(), bits) == DivCeil(ty.Bits(), bits) * bits;
  }

  /** Encrypting the largest digits gives a ciphertext that is accepted and
      decrypts to the widest value. */
  lemma TopStored(key: DirectKey, mask: seq<nat>, log: u64, e: int, ty: EncryptionType) returns (stored: Stored)
    requires UsableKey(key) && EncryptionParameters(key, mask, log, e) && ty != TBool
    requires TrailingZeros(key.messageModulus) > 0
    ensures DecryptCompressed(key, ty, stored) == Ok(Widest(key, ty))
  {
    TopIsAccepted(key, ty);
    var bits := TrailingZeros(key.messageModulus);
    var top := TopDigits(DivCeil(ty.Bits(), bits), key.messageModulus, key.carryModulus);
    var ct := EncryptRadix(key, mask, log, e, top);
    EncryptRadixEncrypts(key, mask, log, e, top);
    RadixRoundTripExact(key, ct, top, ty);
    assert Widest(key, ty) == Positional(top, key.messageModulus);
    hide *;
    StoredMeans(key, ct, ty);
    stored := StoredUint(ModulusSwitched(ct));
  }

  lemma StoredMeans(key: DirectKey, ct: RadixCt, ty: EncryptionType)
    requires key.messageModulus > 0 && ty != TBool
    ensures DecryptCompressed(key, ty, StoredUint(ModulusSwitched(ct))) == RadixMeaning(key, ct, ty.Bits())
  {
  }

  // ----- When the encoding is faithful ----------------------------------------------------

  /** For every key that can encrypt: the wire encoding keeps every value that any
      stored bytes decrypt to if and only if the type is boolean or the widest
      value of its digits fits the wire width. */
  lemma EncodeFaithfulIff(key: DirectKey, mask: seq<nat>, log: u64, e: int, ty: EncryptionType)
    requires UsableKey(key) && EncryptionParameters(key, mask, log, e)
    ensures TrailingZeros(key.messageModulus) > 0
    ensures (forall stored :: EncodedWhole(key, ty, stored)) <==> ty == TBool || Widest(key, ty) < Pow2(8 * ty.Width())
  {
    DigitBitsOfWord(key.messageModulus);
    hide Widest, UsableKey, EncryptionParameters, TrailingZeros;
    if ty == TBool || Widest(key, ty) < Pow2(8 * ty.Width()) {
      forall stored
        ensures EncodedWhole(key, ty, stored)
      {
        NarrowIsWhole(key, ty, stored);
      }
    } else {
      var stored := TopStored(key, mask, log, e, ty);
      EncodeReadsBack(ty, Widest(key, ty));
      assert !EncodedWhole(key, ty, stored);
    }
  }

  lemma NarrowIsWhole(key: DirectKey, ty: EncryptionType, stored: Stored)
    requires UsableKey(key) && TrailingZeros(key.messageModulus) > 0
    requires ty == TBool || Widest(key, ty) < Pow2(8 * ty.Width())
    ensures EncodedWhole(key, ty, stored)
  {
    var r := DecryptCompressed(key, ty, stored);
    if r.Ok? {
      if ty == TBool {
        BoolValue(key, stored);
        Pow2Monotone(1, 8 * ty.Width());
      } else {
        assert r == RadixMeaning(key, stored.uint.payload, ty.Bits());
        hide *;
        DecryptedBelowWidest(key, stored.uint.payload, ty);
      }
      assert r.value < Pow2(8 * ty.Width());
      hide *;
      EncodeReadsBack(ty, r.value);
    }
  }

  /** Where twice the carry modulus leaves room for every digit, that is where the
      digit width divides the type's width. */
  lemma DivisibleIff(key: DirectKey, mask: seq<nat>, log: u64, e: int, ty: EncryptionType)
    requires UsableKey(key) && EncryptionParameters(key, mask, log, e) && key.messageModulus <= 2 * key.carryModulus
    ensures TrailingZeros(key.messageModulus) > 0
    ensures (forall stored :: EncodedWhole(key, ty, stored))
       <==> ty == TBool || ty.Bits() % TrailingZeros(key.messageModulus) == 0
  {
    EncodeFaithfulIff(key, mask, log, e, ty);
    if ty != TBool {
      FullDigits(key, ty);
    }
  }

  lemma FullDigits(key: DirectKey, ty: EncryptionType)
    requires UsableKey(key) && TrailingZeros(key.messageModulus) > 0
    requires key.messageModulus <= 2 * key.carryModulus && ty != TBool
    ensures Widest(key, ty) < Pow2(8 * ty.Width()) <==> ty.Bits() % TrailingZeros(key.messageModulus) == 0
  {
    var bits := TrailingZeros(key.messageModulus);
    DigitBitsOfWord(key.messageModulus);
    KeyModuli(key);
    var n := DivCeil(ty.Bits(), bits);
    var top := TopDigits(n, key.messageModulus, key.carryModulus);
    AllOnes(top, bits);
    NextMultipleFits(ty.Bits(), bits);
    assert bits * n == NextMultiple(ty.Bits(), bits) && 8 * ty.Width() == ty.Bits();
    assert Widest(key, ty) == Pow2(bits * n) - 1;
    hide *;
    var width: nat := ty.Bits();
    if width < bits * n {
      Pow2Monotone(width, bits * n);
    }
  }

  /** The divisor condition suffices for every key. */
  lemma DividedIsWhole(key: DirectKey, ty: EncryptionType, stored: Stored)
    requires UsableModulus(key) && TrailingZeros(key.messageModulus) > 0
    requires ty == TBool || ty.Bits() % TrailingZeros(key.messageModulus) == 0
    ensures EncodedWhole(key, ty, stored)
  {
    var r := DecryptCompressed(key, ty, stored);
    if r.Ok? {
      WidthGuard(key, ty, stored);
      NextMultipleFits(ty.Bits(), TrailingZeros(key.messageModulus));
      hide DecryptCompressed, Encode, NextMultiple, TrailingZeros, IsPowerOfTwo;
      EncodeReadsBack(ty, r.value);
      var bits: nat := 8 * ty.Width();
      if ty == TBool {
        Pow2Monotone(1, bits);
        BoolValue(key, stored);
      } else {
        assert ty.Bits() == bits;
      }
    }
  }

  lemma BoolValue(key: DirectKey, stored: Stored)
    requires key.messageModulus > 0 && DecryptCompressed(key, TBool, stored).Ok?
    ensures DecryptCompressed(key, TBool, stored).value < Pow2(1)
  {
  }

  // ----- Two keys ------------------------------------------------------------------------

  lemma ThreeBitKey() returns (key: DirectKey)
    ensures key == DirectKey([], 8, 8) && UsableKey(key) && EncryptionParameters(key, [], 7, 0)
    ensures TrailingZeros(8) == 3 && Widest(key, U8) == 511
  {
    key := DirectKey([], 8, 8);
    assert Pow2(3) == 8;
    assert Pow2(7) == 128 by { Pow2Add(3, 4); Pow2Byte(); }
    assert TopDigits(3, 8, 8) == [7, 7, 7];
    assert [7, 7, 7][1..] == [7, 7] && [7, 7][1..] == [7] && [7][1..] == [];
  }

  lemma WrittenByte(v: nat)
    ensures ReadBigEndian(Encode(U8, v)) == v % 256
  {
    hide Encode, ReadBigEndian;
    var byte: nat :| byte == 8;
    Pow2Byte();
    EncodeReadsBack(U8, v);
    assert 8 * U8.Width() == byte;
  }

  lemma TopWritten(key: DirectKey, mask: seq<nat>, log: u64, e: int) returns (stored: Stored, v: nat)
    requires UsableKey(key) && EncryptionParameters(key, mask, log, e) && TrailingZeros(key.messageModulus) > 0
    ensures v == Widest(key, U8)
    ensures DecryptCompressed(key, U8, stored) == Ok(v) && ReadBigEndian(Encode(U8, v)) == v % 256
  {
    hide *;
    stored := TopStored(key, mask, log, e, U8);
    v := Widest(key, U8);
    WrittenByte(v);
  }

  /** Three digits of three bits stored as an 8-bit integer: 511 is decrypted and
      255 is written. */
  lemma TruncationExample() returns (key: DirectKey, stored: Stored, v: nat)
    ensures UsableKey(key) && key.messageModulus == key.carryModulus == 8
    ensures DecryptCompressed(key, U8, stored) == Ok(v) && v == 511 && ReadBigEndian(Encode(U8, v)) == 255
  {
    hide *;
    key := ThreeBitKey();
    var log: u64 :| log == 7;
    stored, v := TopWritten(key, [], log, 0);
  }

  lemma OneCarryKey() returns (key: DirectKey)
    ensures key == DirectKey([], 8, 1) && UsableKey(key) && EncryptionParameters(key, [], 4, 0)
    ensures TrailingZeros(8) == 3 && Widest(key, U16) == 62415
  {
    key := DirectKey([], 8, 1);
    assert Pow2(4) == 16 by { Pow2Byte(); }
    var top := [7, 1, 7, 1, 7, 1];
    assert TopDigits(6, 8, 1) == top;
    assert top[1..] == [1, 7, 1, 7, 1] && top[1..][1..] == [7, 1, 7, 1] && top[1..][1..][1..] == [1, 7, 1];
    assert [1, 7, 1][1..] == [7, 1] && [7, 1][1..] == [1] && [1][1..] == [];
    assert Positional([1, 7, 1], 8) == 121;
    assert Positional([7, 1, 7, 1], 8) == 7 + 8 * 121;
  }

  /** With one carry level, 16-bit values of three-bit digits are all written out
      whole, although 3 does not divide 16: the sixth digit never exceeds 1. */
  lemma DivisionNotNeeded(stored: Stored) returns (key: DirectKey)
    ensures UsableKey(key) && key.messageModulus == 8 && TrailingZeros(8) == 3 && U16.Bits() % 3 != 0
    ensures EncodedWhole(key, U16, stored)
  {
    key := OneCarryKey();
    var width: nat := U16.Bits();
    assert width == 8 * U16.Width() && width % 3 != 0;
    assert Pow2(width) == 0x1_0000 by { Pow2Byte(); Pow2Add(8, 8); }
    hide *;
    NarrowIsWhole(key, U16, stored);
  }
}
