/** What decrypting a radix ciphertext is for: the digits that went in come out,
    at the width of the declared type (src/direct_decrypt.rs). */
module RadixRoundTrip {
  import opened Arith
  import opened Lwe
  import opened Options
  import opened Radix

  /** The level of the j-th paired block: low + msg * high. */
  function PairLevel(key: DirectKey, ds: seq<nat>, j: nat): (r: nat)
    requires 2 * j + 1 < |ds|
  {
    MulMonotone(0, key.messageModulus, ds[2 * j + 1]);
    ds[2 * j] + key.messageModulus * ds[2 * j + 1]
  }

  /** The integer layer's packing: two digits to a block, low + msg * high, and
      an odd trailing digit alone. Every block is an encryption of its level. */
  ghost predicate EncryptsDigits(key: DirectKey, ct: RadixCt, ds: seq<nat>)
  {
    && |ds| == 2 * |ct.paired| + (if ct.last.Some? then 1 else 0)
    && (forall j :: 0 <= j < |ct.paired| ==>
          Encrypts(key, ct.paired[j], PairLevel(key, ds, j)))
    && (ct.last.Some? ==> Encrypts(key, ct.last.value, ds[|ds| - 1]))
  }

  /** A key as extracted from the parameters in use: a power-of-two message
      modulus and a cleartext space inside a word. */
  ghost predicate UsableKey(key: DirectKey)
  {
    UsableModulus(key) && 0 < ExactSpace(key) < TWO64
  }

  /** The digits decoding returns: high digits reduced modulo 2 * carry. */
  function Reduced(ds: seq<nat>, carry: nat): (r: seq<nat>)
    requires carry > 0
    ensures |r| == |ds|
  {
    seq(|ds|, i requires 0 <= i < |ds| => if i % 2 == 1 then ds[i] % (2 * carry) else ds[i])
  }

  /** A level low + msg * high taken modulo 2 * msg * carry. */
  lemma SplitLevel(low: nat, high: nat, msg: nat, carry: nat)
    requires low < msg && high < msg && carry > 0
    ensures 2 * msg * carry > 0
    ensures var m := (low + msg * high) % (2 * msg * carry);
            m % msg == low && TwoDigits(m, msg) == [low, high % (2 * carry)]
  {
    var c := 2 * carry;
    assert 2 * msg * carry == msg * c by { MulAssoc(2, msg, carry); MulAssoc(msg, 2, carry); }
    DivModUnique(low + msg * high, msg, high, low);
    LowDigits(low + msg * high, msg, c);
    var m := (low + msg * high) % (msg * c);
    DivModUnique(m, msg, high % c, low);
    DivModDef(high, c);
    if high < c { ModSelf(high, c); }
    ModSelf(high % c, msg);
  }

  lemma EncryptedBlockDecodes(key: DirectKey, block: Block, m: nat)
    requires Encrypts(key, block, m)
    ensures DecodeBlock(key, block) == Ok(m % ExactSpace(key))
  {
    DecodeExactlyEncrypted(key, block, m);
  }

  lemma {:induction false} PairsDecode(levels: seq<Outcome<nat>>, ds: seq<nat>, msg: nat, carry: nat)
    requires msg > 0 && carry > 0 && |ds| == 2 * |levels| && AreDigits(ds, msg)
    requires forall j :: 0 <= j < |levels| ==>
               levels[j] == Ok((ds[2 * j] + msg * ds[2 * j + 1]) % (2 * msg * carry))
    ensures PairedDigits(levels, msg) == Ok(Reduced(ds, carry))
  {
    if levels != [] {
      var n := |levels| - 1;
      var init := ds[..2 * n];
      PairsDecode(levels[..n], init, msg, carry);
      SplitLevel(ds[2 * n], ds[2 * n + 1], msg, carry);
      assert Reduced(ds, carry) == Reduced(init, carry) + [ds[2 * n], ds[2 * n + 1] % (2 * carry)];
    }
  }

  lemma LevelsDecode(levels: seq<Outcome<nat>>, last: Option<Outcome<nat>>, ds: seq<nat>, msg: nat, carry: nat)
    requires msg > 0 && carry > 0 && AreDigits(ds, msg)
    requires |ds| == 2 * |levels| + (if last.Some? then 1 else 0)
    requires forall j :: 0 <= j < |levels| ==>
               levels[j] == Ok((ds[2 * j] + msg * ds[2 * j + 1]) % (2 * msg * carry))
    requires last.Some? ==> last.value == Ok(ds[|ds| - 1] % (2 * msg * carry))
    ensures AllDigits(levels, last, msg) == Ok(Reduced(ds, carry))
  {
    var n := 2 * |levels|;
    PairsDecode(levels, ds[..n], msg, carry);
    if last.Some? {
      assert ds[n] + msg * 0 == ds[n];
      SplitLevel(ds[n], 0, msg, carry);
      assert Reduced(ds, carry) == Reduced(ds[..n], carry) + [ds[n]];
    } else {
      assert ds[..n] == ds;
    }
  }

  lemma DigitsDecode(key: DirectKey, ct: RadixCt, ds: seq<nat>)
    requires UsableKey(key) && EncryptsDigits(key, ct, ds)
    requires AreDigits(ds, key.messageModulus)
    ensures key.carryModulus > 0
    ensures Digits(key, ct) == Ok(Reduced(ds, key.carryModulus))
  {
    forall j | 0 <= j < |ct.paired|
      ensures Levels(key, ct.paired)[j]
           == Ok((ds[2 * j] + key.messageModulus * ds[2 * j + 1]) % ExactSpace(key))
    {
      EncryptedBlockDecodes(key, ct.paired[j], PairLevel(key, ds, j));
    }
    if ct.last.Some? {
      EncryptedBlockDecodes(key, ct.last.value, ds[|ds| - 1]);
    }
    LevelsDecode(Levels(key, ct.paired), LastLevel(key, ct.last), ds, key.messageModulus, key.carryModulus);
  }

  // ----- Width ------------------------------------------------------------------------

  predicate Accepted(count: nat, bits: nat, ty: EncryptionType)
    requires bits > 0
  {
    0 < count && bits * count <= NextMultiple(ty.Bits(), bits)
  }

  lemma DigitBitsOfWord(msg: u64)
    requires IsPowerOfTwo(msg) && msg >= 2
    ensures 1 <= TrailingZeros(msg) < 64 && msg == Pow2(TrailingZeros(msg))
  {
    PowerOfTwoIsPow2(msg);
    var width: nat :| width == 64;
    Pow2Word(width);
    if TrailingZeros(msg) >= width {
      Pow2Monotone(width, TrailingZeros(msg));
    }
  }

  /** The width guard keeps the sum inside 256 bits ... */
  lemma AcceptedSumFits(ds: seq<nat>, bits: nat, ty: EncryptionType)
    requires 1 <= bits < 64 && AreDigits(ds, Pow2(bits)) && Accepted(|ds|, bits, ty)
    ensures Positional(ds, Pow2(bits)) < TWO256
  {
    NextMultipleFits(ty.Bits(), bits);
    var width := WideWord();
    PositionalBound(ds, bits);
    Pow2Monotone(bits * |ds|, width);
  }

  /** ... and every shifted digit whole: no shift loses a bit. */
  lemma AcceptedShiftFits(ds: seq<nat>, bits: nat, ty: EncryptionType, i: nat)
    requires 1 <= bits < 64 && AreDigits(ds, Pow2(bits)) && Accepted(|ds|, bits, ty) && i < |ds|
    ensures 0 <= bits * i
    ensures Shl256(ds[i], bits * i) == ds[i] * Pow2(bits * i)
  {
    NextMultipleFits(ty.Bits(), bits);
    var width := WideWord();
    NextDigitFits(bits, i, |ds|);
    ShiftBound(ds[i], bits, bits * i, width);
    ModSelf(ds[i] * Pow2(bits * i), TWO256);
  }

  lemma NextDigitFits(bits: nat, i: nat, n: nat)
    requires i < n
    ensures 0 <= bits * i && bits * i + bits <= bits * n
  {
    MulMonotone(i + 1, n, bits);
    MulDistrib(bits, i, 1);
  }

  lemma ShiftBound(d: nat, bits: nat, s: nat, width: nat)
    requires d < Pow2(bits) && s + bits <= width
    ensures 0 <= d * Pow2(s) < Pow2(width)
  {
    MulMonotone(0, d, Pow2(s));
    MulStrict(d, Pow2(bits), Pow2(s));
    Pow2Add(bits, s);
    Pow2Monotone(bits + s, width);
  }

  // ----- The round trip -----------------------------------------------------------------

  /** Every paired high digit leaves room in the carry space. */
  ghost predicate HighDigitsFit(ds: seq<nat>, carry: nat)
  {
    forall i :: 0 <= i < |ds| && i % 2 == 1 ==> ds[i] < 2 * carry
  }

  lemma ReducedIsIdentity(ds: seq<nat>, carry: nat)
    requires carry > 0
    ensures Reduced(ds, carry) == ds <==> HighDigitsFit(ds, carry)
  {
    forall i | 0 <= i < |ds| && i % 2 == 1
      ensures Reduced(ds, carry)[i] == ds[i] <==> ds[i] < 2 * carry
    {
      DivModDef(ds[i], 2 * carry);
      if ds[i] < 2 * carry { ModSelf(ds[i], 2 * carry); }
    }
    if HighDigitsFit(ds, carry) {
      assert Reduced(ds, carry) == ds;
    }
  }

  /** Encrypt any digits, pair by pair with an odd one alone, and decode: the
      value is their positional sum exactly when the high digits fit the carry
      space; nothing is refused but the length of the list. */
  lemma RadixRoundTripExact(key: DirectKey, ct: RadixCt, ds: seq<nat>, ty: EncryptionType)
    requires UsableKey(key) && EncryptsDigits(key, ct, ds) && AreDigits(ds, key.messageModulus)
    ensures TrailingZeros(key.messageModulus) > 0
    ensures var bits := TrailingZeros(key.messageModulus);
            var r := RadixMeaning(key, ct, ty.Bits());
            if ds == [] then r == Err(EmptyRadix)
            else if bits * |ds| >= TWO64 then r == Err(DigitWidthOverflow)
            else if Accepted(|ds|, bits, ty) then
              && r.Ok?
              && (r == Ok(Positional(ds, key.messageModulus)) <==> HighDigitsFit(ds, key.carryModulus))
            else r == Err(WidthExceeded(bits * |ds|, ty.Bits()))
  {
    var msg, bits := key.messageModulus, TrailingZeros(key.messageModulus);
    DigitBitsOfWord(msg);
    DigitsDecode(key, ct, ds);
    var got := Reduced(ds, key.carryModulus);
    if Accepted(|ds|, bits, ty) {
      DigitsInRange(Levels(key, ct.paired), LastLevel(key, ct.last), msg);
      AcceptedSumFits(got, bits, ty);
      ModSelf(Positional(got, msg), TWO256);
      ReducedIsIdentity(ds, key.carryModulus);
      if Positional(got, msg) == Positional(ds, msg) {
        PositionalInjective(got, ds, msg);
      }
    }
  }

  /** With msg <= 2 * carry (in particular msg <= carry) every digit list that
      fits the width comes back. */
  lemma RadixRoundTripHolds(key: DirectKey, ct: RadixCt, ds: seq<nat>, ty: EncryptionType)
    requires UsableKey(key) && EncryptsDigits(key, ct, ds) && AreDigits(ds, key.messageModulus)
    requires key.messageModulus <= 2 * key.carryModulus
    requires TrailingZeros(key.messageModulus) > 0
    requires Accepted(|ds|, TrailingZeros(key.messageModulus), ty)
    ensures RadixMeaning(key, ct, ty.Bits()) == Ok(Positional(ds, key.messageModulus))
  {
    DigitBitsOfWord(key.messageModulus);
    NextMultipleFits(ty.Bits(), TrailingZeros(key.messageModulus));
    RadixRoundTripExact(key, ct, ds, ty);
  }

  /** With msg > 2 * carry the pair (0, 2 * carry) is lost: its level leaves the
      cleartext space, so no encryption of it decodes back. */
  lemma WideDigitLost(key: DirectKey, ct: RadixCt, ty: EncryptionType)
    requires UsableKey(key) && key.messageModulus > 2 * key.carryModulus
    requires EncryptsDigits(key, ct, [0, 2 * key.carryModulus])
    ensures RadixMeaning(key, ct, ty.Bits()) != Ok(Positional([0, 2 * key.carryModulus], key.messageModulus))
  {
    var ds := [0, 2 * key.carryModulus];
    DigitBitsOfWord(key.messageModulus);
    RadixRoundTripExact(key, ct, ds, ty);
    assert ds[1] == 2 * key.carryModulus && !HighDigitsFit(ds, key.carryModulus);
  }

  /** Once every block decodes, a ciphertext is accepted exactly when it has a
      block and its digits fit the rounded-up width of the declared type. */
  lemma AcceptedIff(key: DirectKey, ct: RadixCt, ty: EncryptionType)
    requires UsableModulus(key) && Digits(key, ct).Ok?
    ensures TrailingZeros(key.messageModulus) > 0
    ensures RadixMeaning(key, ct, ty.Bits()).Ok?
       <==> Accepted(2 * |ct.paired| + (if ct.last.Some? then 1 else 0), TrailingZeros(key.messageModulus), ty)
  {
    DigitBitsOfWord(key.messageModulus);
    NextMultipleFits(ty.Bits(), TrailingZeros(key.messageModulus));
    DigitCount(key, ct);
    hide Digits, IsPowerOfTwo, TrailingZeros;
  }

  lemma DigitCount(key: DirectKey, ct: RadixCt)
    requires key.messageModulus > 0 && Digits(key, ct).Ok?
    ensures |Digits(key, ct).value| == 2 * |ct.paired| + if ct.last.Some? then 1 else 0
  {
    PairedCount(Levels(key, ct.paired), key.messageModulus);
  }

  lemma {:induction false} PairedCount(levels: seq<Outcome<nat>>, msg: nat)
    requires msg > 0 && PairedDigits(levels, msg).Ok?
    ensures |PairedDigits(levels, msg).value| == 2 * |levels|
  {
    if levels != [] {
      PairedCount(levels[..|levels| - 1], msg);
    }
  }

  // ----- Which ciphertexts have digits ------------------------------------------------------

  ghost predicate AllDecode(key: DirectKey, ct: RadixCt)
  {
    && (forall j :: 0 <= j < |ct.paired| ==> DecodeBlock(key, ct.paired[j]).Ok?)
    && (ct.last.Some? ==> DecodeBlock(key, ct.last.value).Ok?)
  }

  /** Block k does not decode and all before it do; the unpaired block counts as
      the one after the paired ones. */
  ghost predicate FirstToFail(key: DirectKey, ct: RadixCt, k: nat, block: Block)
  {
    && !DecodeBlock(key, block).Ok?
    && (if k < |ct.paired| then block == ct.paired[k] else k == |ct.paired| && ct.last == Some(block))
    && forall j :: 0 <= j < k ==> DecodeBlock(key, ct.paired[j]).Ok?
  }

  /** There are digits exactly when every block decodes, and they are then the two
      digits of every paired level and the one of the last; otherwise the first
      block that fails decides how. */
  lemma DigitsExact(key: DirectKey, ct: RadixCt)
    requires key.messageModulus > 0
    ensures Digits(key, ct).Ok? <==> AllDecode(key, ct)
    ensures Digits(key, ct).Ok? ==> DigitsOf(key, ct, Digits(key, ct).value)
    ensures forall k: nat, block: Block :: FirstToFail(key, ct, k, block) ==>
              match DecodeBlock(key, block)
              case Err(e) => Digits(key, ct) == Err(e)
              case Panic => Digits(key, ct) == Panic
              case Ok(_) => false
  {
    hide DecodeBlock;
    var levels, msg := Levels(key, ct.paired), key.messageModulus;
    PairedExact(levels, msg);
    forall k: nat, block: Block | FirstToFail(key, ct, k, block)
      ensures match DecodeBlock(key, block)
              case Err(e) => Digits(key, ct) == Err(e)
              case Panic => Digits(key, ct) == Panic
              case Ok(_) => false
    {
      if k < |ct.paired| {
        PairedExact(levels[..k], msg);
        FirstFailureDecides(levels, k, msg);
      }
    }
  }

  ghost predicate DigitsOf(key: DirectKey, ct: RadixCt, ds: seq<nat>)
    requires key.messageModulus > 0 && AllDecode(key, ct)
  {
    && |ds| == 2 * |ct.paired| + (if ct.last.Some? then 1 else 0)
    && (forall j :: 0 <= j < |ct.paired| ==>
          var m := DecodeBlock(key, ct.paired[j]).value;
          ds[2 * j] == m % key.messageModulus && ds[2 * j + 1] == m / key.messageModulus % key.messageModulus)
    && (ct.last.Some? ==> ds[|ds| - 1] == DecodeBlock(key, ct.last.value).value % key.messageModulus)
  }

  lemma {:induction false} PairedExact(levels: seq<Outcome<nat>>, msg: nat)
    requires msg > 0
    ensures PairedDigits(levels, msg).Ok? <==> forall i :: 0 <= i < |levels| ==> levels[i].Ok?
    ensures PairedDigits(levels, msg).Ok? ==>
              && |PairedDigits(levels, msg).value| == 2 * |levels|
              && forall i :: 0 <= i < |levels| ==>
                   && PairedDigits(levels, msg).value[2 * i] == levels[i].value % msg
                   && PairedDigits(levels, msg).value[2 * i + 1] == levels[i].value / msg % msg
  {
    if levels != [] {
      var init, last := levels[..|levels| - 1], levels[|levels| - 1];
      PairedExact(init, msg);
      assert forall i :: 0 <= i < |init| ==> init[i] == levels[i];
    }
  }

  // ----- Encryptions of every digit list exist --------------------------------------------

  ghost function EncryptPairs(key: DirectKey, mask: seq<nat>, log: u64, e: int, ds: seq<nat>): (bs: seq<Block>)
    requires MaskFits(key, mask, log) && ExactSpace(key) > 0
    ensures |bs| == |ds| / 2
  {
    seq(|ds| / 2, j requires 0 <= j < |ds| / 2 =>
      EncryptBlock(key, mask, log, PairLevel(key, ds, j), e))
  }

  ghost function EncryptRadix(key: DirectKey, mask: seq<nat>, log: u64, e: int, ds: seq<nat>): (r: RadixCt)
    requires MaskFits(key, mask, log) && ExactSpace(key) > 0
  {
    var n := |ds| / 2 * 2;
    RadixCt(EncryptPairs(key, mask, log, e, ds),
            if n < |ds| then Some(EncryptBlock(key, mask, log, ds[n], e)) else None)
  }

  lemma EncryptRadixEncrypts(key: DirectKey, mask: seq<nat>, log: u64, e: int, ds: seq<nat>)
    requires EncryptionParameters(key, mask, log, e)
    ensures EncryptsDigits(key, EncryptRadix(key, mask, log, e, ds), ds)
  {
    forall j | 0 <= j < |ds| / 2
      ensures Encrypts(key, EncryptPairs(key, mask, log, e, ds)[j], PairLevel(key, ds, j))
    {
      PairEncrypts(key, mask, log, e, ds, j);
    }
    var n := |ds| / 2 * 2;
    if n < |ds| {
      EncryptThenDecode(key, mask, log, ds[n], e);
    }
  }

  lemma PairEncrypts(key: DirectKey, mask: seq<nat>, log: u64, e: int, ds: seq<nat>, j: nat)
    requires EncryptionParameters(key, mask, log, e) && j < |ds| / 2
    ensures Encrypts(key, EncryptPairs(key, mask, log, e, ds)[j], PairLevel(key, ds, j))
  {
    EncryptThenDecode(key, mask, log, PairLevel(key, ds, j), e);
  }

  /** Decoding inverts encryption: for every digit list, mask and admissible
      noise, the ciphertext built from it decodes to its positional sum. */
  lemma EncryptRadixDecodes(key: DirectKey, mask: seq<nat>, log: u64, e: int, ds: seq<nat>, ty: EncryptionType)
    requires UsableKey(key) && EncryptionParameters(key, mask, log, e)
    requires AreDigits(ds, key.messageModulus) && key.messageModulus <= 2 * key.carryModulus
    requires TrailingZeros(key.messageModulus) > 0
    requires Accepted(|ds|, TrailingZeros(key.messageModulus), ty)
    ensures EncryptsDigits(key, EncryptRadix(key, mask, log, e, ds), ds)
    ensures RadixMeaning(key, EncryptRadix(key, mask, log, e, ds), ty.Bits())
         == Ok(Positional(ds, key.messageModulus))
  {
    EncryptRadixEncrypts(key, mask, log, e, ds);
    RadixRoundTripHolds(key, EncryptRadix(key, mask, log, e, ds), ds, ty);
  }

  /** The ciphertext built from the digits decodes to their positional sum. */
  ghost predicate ComesBack(key: DirectKey, mask: seq<nat>, log: u64, e: int, ds: seq<nat>, ty: EncryptionType)
    requires MaskFits(key, mask, log) && ExactSpace(key) > 0
  {
    RadixMeaning(key, EncryptRadix(key, mask, log, e, ds), ty.Bits()) == Ok(Positional(ds, key.messageModulus))
  }

  ghost predicate AllComeBack(key: DirectKey, mask: seq<nat>, log: u64, e: int, ty: EncryptionType)
    requires MaskFits(key, mask, log) && ExactSpace(key) > 0
    requires TrailingZeros(key.messageModulus) > 0
  {
    forall ds :: AreDigits(ds, key.messageModulus) && Accepted(|ds|, TrailingZeros(key.messageModulus), ty) ==>
                   ComesBack(key, mask, log, e, ds, ty)
  }

  /** For every key, mask, admissible noise and type of at least two digits: all
      digit lists of the type come back from their encryption if and only if the
      message modulus is at most twice the carry modulus. */
  lemma AllComeBackIff(key: DirectKey, mask: seq<nat>, log: u64, e: int, ty: EncryptionType)
    requires UsableKey(key) && EncryptionParameters(key, mask, log, e)
    requires TrailingZeros(key.messageModulus) > 0 && Accepted(2, TrailingZeros(key.messageModulus), ty)
    ensures AllComeBack(key, mask, log, e, ty) <==> key.messageModulus <= 2 * key.carryModulus
  {
    hide ComesBack, RadixMeaning, EncryptRadix, IsPowerOfTwo, TrailingZeros;
    if key.messageModulus <= 2 * key.carryModulus {
      forall ds | AreDigits(ds, key.messageModulus) && Accepted(|ds|, TrailingZeros(key.messageModulus), ty)
        ensures ComesBack(key, mask, log, e, ds, ty)
      {
        EncryptedComesBack(key, mask, log, e, ds, ty);
      }
    } else {
      hide ComesBack, UsableKey, EncryptionParameters, AreDigits, Accepted;
      var ds := [0, 2 * key.carryModulus];
      NarrowCarryLosesDigits(key, mask, log, e, ty);
      assert |ds| == 2;
    }
  }

  lemma EncryptedComesBack(key: DirectKey, mask: seq<nat>, log: u64, e: int, ds: seq<nat>, ty: EncryptionType)
    requires UsableKey(key) && EncryptionParameters(key, mask, log, e)
    requires AreDigits(ds, key.messageModulus) && key.messageModulus <= 2 * key.carryModulus
    requires TrailingZeros(key.messageModulus) > 0
    requires Accepted(|ds|, TrailingZeros(key.messageModulus), ty)
    ensures ComesBack(key, mask, log, e, ds, ty)
  {
    hide RadixMeaning, EncryptRadix;
    EncryptRadixDecodes(key, mask, log, e, ds, ty);
  }

  /** With msg > 2 * carry the digits 0 and 2 * carry, encrypted, do not come
      back. */
  lemma NarrowCarryLosesDigits(key: DirectKey, mask: seq<nat>, log: u64, e: int, ty: EncryptionType)
    requires UsableKey(key) && EncryptionParameters(key, mask, log, e)
    requires key.messageModulus > 2 * key.carryModulus
    ensures AreDigits([0, 2 * key.carryModulus], key.messageModulus)
    ensures !ComesBack(key, mask, log, e, [0, 2 * key.carryModulus], ty)
  {
    var ds := [0, 2 * key.carryModulus];
    EncryptRadixEncrypts(key, mask, log, e, ds);
    WideDigitLost(key, EncryptRadix(key, mask, log, e, ds), ty);
  }

  /** A key for which that happens: message modulus 4, carry modulus 1. */
  lemma NarrowCarryExample(ty: EncryptionType) returns (key: DirectKey)
    ensures UsableKey(key) && key.messageModulus == 4 && key.carryModulus == 1
    ensures EncryptionParameters(key, [], 3, 0) && !ComesBack(key, [], 3, 0, [0, 2], ty)
  {
    key := DirectKey([], 4, 1);
    assert Pow2(3) == 8;
    NarrowCarryLosesDigits(key, [], 3, 0, ty);
  }

  // ----- Encoding what was decoded ---------------------------------------------------------

  ghost predicate EncodesFaithfully(ds: seq<nat>, bits: nat, ty: EncryptionType)
  {
    ReadBigEndian(Encode(ty, Positional(ds, Pow2(bits)))) == Positional(ds, Pow2(bits))
  }

  /** Of the digit lists the guard accepts, all are kept by the wire encoding
      exactly when the digit width divides the type's width. */
  lemma DigitsEncodeFaithfulIff(bits: nat, ty: EncryptionType)
    requires 1 <= bits < 64 && ty != TBool
    ensures ty.Bits() % bits == 0
       <==> forall ds :: AreDigits(ds, Pow2(bits)) && Accepted(|ds|, bits, ty) ==> EncodesFaithfully(ds, bits, ty)
  {
    NextMultipleFits(ty.Bits(), bits);
    if ty.Bits() % bits == 0 {
      forall ds | AreDigits(ds, Pow2(bits)) && Accepted(|ds|, bits, ty)
        ensures EncodesFaithfully(ds, bits, ty)
      {
        PositionalBound(ds, bits);
        Pow2Monotone(bits * |ds|, ty.Bits());
        EncodeReadsBack(ty, Positional(ds, Pow2(bits)));
      }
    } else {
      var top := WidestAccepted(bits, ty);
      assert AreDigits(top, Pow2(bits)) && Accepted(|top|, bits, ty) && !EncodesFaithfully(top, bits, ty);
    }
  }

  /** All digits at their maximum, at the rounded-up width. */
  lemma WidestAccepted(bits: nat, ty: EncryptionType) returns (top: seq<nat>)
    requires 1 <= bits < 64 && ty != TBool && ty.Bits() % bits != 0
    ensures AreDigits(top, Pow2(bits)) && Accepted(|top|, bits, ty)
    ensures !EncodesFaithfully(top, bits, ty)
  {
    var n := DivCeil(ty.Bits(), bits);
    NextMultipleFits(ty.Bits(), bits);
    top := seq(n, i => Pow2(bits) - 1);
    AllOnes(top, bits);
    assert bits * n == NextMultiple(ty.Bits(), bits);
    assert ty.Bits() < bits * n;
    Pow2Monotone(ty.Bits(), bits * n);
    EncodeReadsBack(ty, Positional(top, Pow2(bits)));
  }

  lemma {:induction false} AllOnes(ds: seq<nat>, bits: nat)
    requires forall i :: 0 <= i < |ds| ==> ds[i] == Pow2(bits) - 1
    ensures Positional(ds, Pow2(bits)) == Pow2(bits * |ds|) - 1
  {
    if ds == [] {
      assert bits * |ds| == 0;
    } else {
      AllOnes(ds[1..], bits);
      var n := |ds| - 1;
      assert bits * |ds| == bits + bits * n;
      Pow2Add(bits, bits * n);
      MulDistrib(Pow2(bits), Pow2(bits * n), 1);
    }
  }

  // ----- decrypt_compressed -------------------------------------------------------------------

  datatype Form<+T> = Seeded | ModulusSwitched(payload: T)

  /** What the stored bytes deserialize to; the wire format tells booleans from
      integers and nothing more. */
  datatype Stored = StoredUint(uint: Form<RadixCt>) | StoredBool(bool_: Form<Block>) | Garbage

  function DecryptBool(key: DirectKey, stored: Stored): (r: Outcome<nat>)
    requires key.messageModulus > 0
  {
    match stored
    case StoredBool(ModulusSwitched(block)) =>
      (match DecodeBlock(key, block)
       case Ok(m) => Ok(if m % key.messageModulus != 0 then 1 else 0)
       case Err(e) => Err(e)
       case Panic => Panic)
    case StoredBool(Seeded) => Err(SeededForm)
    case _ => Err(Deserialize)
  }

  function DecryptUint(key: DirectKey, stored: Stored, maxBits: nat): (r: Outcome<nat>)
  {
    match stored
    case StoredUint(ModulusSwitched(radix)) => RadixMeaning(key, radix, maxBits)
    case StoredUint(Seeded) => Err(SeededForm)
    case _ => Err(Deserialize)
  }

  function DecryptCompressed(key: DirectKey, ty: EncryptionType, stored: Stored): (r: Outcome<nat>)
    requires key.messageModulus > 0
  {
    if ty == TBool then DecryptBool(key, stored) else DecryptUint(key, stored, ty.Bits())
  }

  /** The stored form a type is decrypted from. */
  ghost predicate KindOf(ty: EncryptionType, stored: Stored)
  {
    match stored
    case StoredBool(_) => ty == TBool
    case StoredUint(_) => ty != TBool
    case Garbage => false
  }

  ghost predicate IsSeeded(stored: Stored)
  {
    (stored.StoredBool? && stored.bool_.Seeded?) || (stored.StoredUint? && stored.uint.Seeded?)
  }

  /** Only the compressed form of the kind the type names is ever decrypted: bytes
      that do not decode or are of the other kind do not deserialize, and the
      seeded form is refused as such. */
  lemma FormDecides(key: DirectKey, ty: EncryptionType, stored: Stored)
    requires key.messageModulus > 0
    ensures var r := DecryptCompressed(key, ty, stored);
            && (r.Ok? || r.Panic? ==> KindOf(ty, stored) && !IsSeeded(stored))
            && (r == Err(Deserialize) <==> !KindOf(ty, stored))
            && (r == Err(SeededForm) <==> KindOf(ty, stored) && IsSeeded(stored))
  {
    hide DecodeBlock;
    match stored
    case StoredUint(ModulusSwitched(ct)) => RadixErrors(key, ct, ty.Bits());
    case StoredBool(ModulusSwitched(block)) => BlockErrors(key, block);
    case _ =>
  }

  lemma BlockErrors(key: DirectKey, block: Block)
    ensures DecodeBlock(key, block) !in {Err(Deserialize), Err(SeededForm)}
  {
  }

  lemma {:induction false} PairedErrors(levels: seq<Outcome<nat>>, msg: nat)
    requires msg > 0 && forall i :: 0 <= i < |levels| ==> levels[i] !in {Err(Deserialize), Err(SeededForm)}
    ensures PairedDigits(levels, msg) !in {Err(Deserialize), Err(SeededForm)}
  {
    if levels != [] {
      PairedErrors(levels[..|levels| - 1], msg);
    }
  }

  lemma RadixErrors(key: DirectKey, ct: RadixCt, maxBits: nat)
    ensures RadixMeaning(key, ct, maxBits) !in {Err(Deserialize), Err(SeededForm)}
  {
    hide DecodeBlock;
    if UsableModulus(key) {
      forall i | 0 <= i < |ct.paired|
        ensures Levels(key, ct.paired)[i] !in {Err(Deserialize), Err(SeededForm)}
      {
        BlockErrors(key, ct.paired[i]);
      }
      PairedErrors(Levels(key, ct.paired), key.messageModulus);
      if ct.last.Some? {
        BlockErrors(key, ct.last.value);
      }
    }
  }

  /** A stored boolean is refused exactly when its block is not admissible, and
      panics exactly when the cleartext space wraps to zero. */
  lemma BoolTotal(key: DirectKey, block: Block)
    requires key.messageModulus > 0
    ensures var r := DecryptCompressed(key, TBool, StoredBool(ModulusSwitched(block)));
            && (r.Err? <==> !Admissible(key, block))
            && (r.Panic? <==> Admissible(key, block) && ExactSpace(key) % TWO64 == 0)
            && (r.Ok? || r == DecodeBlock(key, block))
  {
    DecodeTotal(key, block);
    hide DecodeBlock, Admissible;
  }

  /** An encryption of any level decrypts to whether its message is not zero. */
  lemma BoolExact(key: DirectKey, block: Block, m: nat)
    requires key.messageModulus > 0 && Encrypts(key, block, m)
    ensures DecryptCompressed(key, TBool, StoredBool(ModulusSwitched(block)))
         == Ok(if m % key.messageModulus == 0 then 0 else 1)
  {
    EncryptedBlockDecodes(key, block, m);
    SpaceOf(key, block, m);
    hide DecodeBlock, Encrypts;
    MessageOfLevel(m, key.messageModulus, 2 * key.carryModulus);
    MulAssoc(2, key.messageModulus, key.carryModulus);
    MulAssoc(key.messageModulus, 2, key.carryModulus);
  }

  lemma SpaceOf(key: DirectKey, block: Block, m: nat)
    requires Encrypts(key, block, m)
    ensures key.carryModulus > 0 && ExactSpace(key) > 0
  {
    assert key.carryModulus == 0 ==> ExactSpace(key) == 0;
  }

  lemma MessageOfLevel(m: nat, msg: nat, c: nat)
    requires msg > 0 && c > 0
    ensures msg * c > 0 && m % (msg * c) % msg == m % msg
  {
    LowDigits(m, msg, c);
    DivModUnique(m % (msg * c), msg, m / msg % c, m % msg);
  }

  /** An encrypted boolean decrypts to itself. */
  lemma BoolRoundTrip(key: DirectKey, block: Block, b: bool)
    requires UsableKey(key) && Encrypts(key, block, if b then 1 else 0)
    ensures DecryptCompressed(key, TBool, StoredBool(ModulusSwitched(block))) == Ok(if b then 1 else 0)
  {
    var m := if b then 1 else 0;
    EncryptedBlockDecodes(key, block, m);
    SplitLevel(m, 0, key.messageModulus, key.carryModulus);
    assert m + key.messageModulus * 0 == m;
  }

  /** Encrypted digits, decrypted and written out at the type's width, read back
      as their positional sum. */
  lemma UintEndToEnd(key: DirectKey, ct: RadixCt, ds: seq<nat>, ty: EncryptionType)
    requires UsableKey(key) && EncryptsDigits(key, ct, ds) && AreDigits(ds, key.messageModulus)
    requires key.messageModulus <= 2 * key.carryModulus && ty != TBool
    requires TrailingZeros(key.messageModulus) > 0
    requires Accepted(|ds|, TrailingZeros(key.messageModulus), ty)
    requires ty.Bits() % TrailingZeros(key.messageModulus) == 0
    ensures var r := DecryptCompressed(key, ty, StoredUint(ModulusSwitched(ct)));
            r.Ok? && ReadBigEndian(Encode(ty, r.value)) == Positional(ds, key.messageModulus)
  {
    RadixRoundTripHolds(key, ct, ds, ty);
    DigitBitsOfWord(key.messageModulus);
    DigitsEncodeFaithfulIff(TrailingZeros(key.messageModulus), ty);
    assert EncodesFaithfully(ds, TrailingZeros(key.messageModulus), ty);
  }

  /** A decryption of any stored bytes never exceeds the rounded-up width of the
      declared type, whatever the bytes claim. */
  lemma WidthGuard(key: DirectKey, ty: EncryptionType, stored: Stored)
    requires UsableModulus(key) && DecryptCompressed(key, ty, stored).Ok?
    ensures TrailingZeros(key.messageModulus) > 0
    ensures DecryptCompressed(key, ty, stored).value
          < Pow2(NextMultiple(ty.Bits(), TrailingZeros(key.messageModulus)))
  {
    var bits := TrailingZeros(key.messageModulus);
    DigitBitsOfWord(key.messageModulus);
    NextMultipleFits(ty.Bits(), bits);
    Pow2Monotone(1, NextMultiple(ty.Bits(), bits));
    if ty != TBool {
      RadixWidth(key, stored.uint.payload, ty);
    }
  }

  lemma AcceptedWidth(ds: seq<nat>, bits: nat, ty: EncryptionType)
    requires 1 <= bits < 64 && AreDigits(ds, Pow2(bits)) && Accepted(|ds|, bits, ty)
    ensures Positional(ds, Pow2(bits)) % TWO256 < Pow2(NextMultiple(ty.Bits(), bits))
  {
    PositionalBound(ds, bits);
    Pow2Monotone(bits * |ds|, NextMultiple(ty.Bits(), bits));
    AcceptedSumFits(ds, bits, ty);
    ModSelf(Positional(ds, Pow2(bits)), TWO256);
  }

  lemma RadixWidth(key: DirectKey, ct: RadixCt, ty: EncryptionType)
    requires UsableModulus(key) && RadixMeaning(key, ct, ty.Bits()).Ok?
    ensures TrailingZeros(key.messageModulus) > 0
    ensures RadixMeaning(key, ct, ty.Bits()).value < Pow2(NextMultiple(ty.Bits(), TrailingZeros(key.messageModulus)))
  {
    var bits := TrailingZeros(key.messageModulus);
    DigitBitsOfWord(key.messageModulus);
    var ds := Digits(key, ct).value;
    assert RadixMeaning(key, ct, ty.Bits()).value == Positional(ds, key.messageModulus) % TWO256 && Accepted(|ds|, bits, ty);
    DigitsInRange(Levels(key, ct.paired), LastLevel(key, ct.last), key.messageModulus);
    hide RadixMeaning, Digits, Levels, LastLevel, AllDigits, IsPowerOfTwo, TrailingZeros, Pow2, Positional, NextMultiple;
    AcceptedWidth(ds, bits, ty);
  }
}
