/** Decoding one modulus-switched compressed LWE block directly with the small
    secret key (src/direct_decrypt.rs). Field values of a block are raw data of
    an untrusted server; the key is trusted. */
module Lwe {
  import opened Arith

  /** Rejections of the decrypt path, one per distinguishable reason. */
  datatype DecryptError =
    | UnsupportedType(wire: int)
    | WidthExceeded(gotBits: nat, maxBits: nat)
    | ModuliMismatch
    | DimensionMismatch(ct: nat, key: nat)
    | PackedLenMismatch
    | WrongAtomicPattern
    | Deserialize
    | SeededForm
    | MultiBitForm
    | InvalidModulusLog(log: nat)
    | InvalidMessageModulus(modulus: nat)
    | EmptyRadix
    | DigitWidthOverflow

  /** What a decode can do: answer, reject, or panic. */
  datatype Outcome<+T> = Ok(value: T) | Err(error: DecryptError) | Panic

  datatype DirectKey = DirectKey(small: seq<u64>, messageModulus: u64, carryModulus: u64)

  datatype AtomicPattern = KeyswitchBootstrap | BootstrapKeyswitch | OtherPattern

  datatype Packed = Packed(words: seq<u64>, log: u64, initialLen: u64)

  datatype Inner = Classic(packed: Packed, dimension: u64) | MultiBit

  datatype Block = Block(inner: Inner, messageModulus: u64, carryModulus: u64, pattern: AtomicPattern)

  // ----- The packed container -------------------------------------------------

  /** The word array read as one little-endian number. */
  function WordsValue(words: seq<u64>): (v: nat)
  {
    if words == [] then 0 else words[0] + TWO64 * WordsValue(words[1..])
  }

  /** The contract of tfhe's `unpack`: coefficient i is bits [i*log, (i+1)*log). */
  function Coefficient(words: seq<u64>, log: nat, i: nat): (c: nat)
    ensures c < Pow2(log)
  {
    WordsValue(words) / Pow2(i * log) % Pow2(log)
  }

  function Unpack(p: Packed): (cs: seq<nat>)
    ensures |cs| == p.initialLen
    ensures forall i :: 0 <= i < |cs| ==> cs[i] < Pow2(p.log)
  {
    seq(p.initialLen, i requires 0 <= i => Coefficient(p.words, p.log, i))
  }

  // ----- The decoder ----------------------------------------------------------

  /** `mask.zip(sk).map(wrapping_mul).fold(acc, wrapping_add)`. */
  function WrappingDot(mask: seq<u64>, sk: seq<u64>, acc: u64): (r: u64)
  {
    if mask == [] || sk == [] then acc
    else WrappingDot(mask[1..], sk[1..], WrappingAdd(acc, WrappingMul(mask[0], sk[0])))
  }

  /** The exact inner product over the integers. */
  function Dot(mask: seq<nat>, sk: seq<nat>): (r: nat)
  {
    if mask == [] || sk == [] then 0
    else mask[0] * sk[0] + Dot(mask[1..], sk[1..])
  }

  /** `2 * msg_mod * carry_mod` in u64, which wraps in a release build. */
  function WrappedSpace(key: DirectKey): (r: u64)
  {
    WrappingMul(WrappingMul(2, key.messageModulus), key.carryModulus)
  }

  function ExactSpace(key: DirectKey): (r: nat)
  {
    2 * key.messageModulus * key.carryModulus
  }

  /** The low `log` bits of the phase `body - <mask, sk>`. */
  function Phase(coeffs: seq<nat>, sk: seq<u64>, log: nat): (r: nat)
    requires |coeffs| > 0 && log < 64
    requires forall i :: 0 <= i < |coeffs| ==> coeffs[i] < TWO64
  {
    var mask: seq<u64> := coeffs[..|coeffs| - 1];
    WrappingSub(coeffs[|coeffs| - 1], WrappingDot(mask, sk, 0)) % Pow2(log)
  }

  /** The additions and the shift in u128, the cast to u64, the remainder. */
  function RoundProduct(product: nat, half: nat, q: nat, space: u64): (m: nat)
    requires q > 0 && space > 0
  {
    (product % TWO128 + half) % TWO128 / q % TWO64 % space
  }

  /** `((dec as u128 * space as u128 + (1 << (log - 1))) >> log) as u64 % space`. */
  function Round(dec: nat, space: u64, log: nat): (r: nat)
    requires space > 0 && log > 0
  {
    RoundProduct(dec * space, Pow2(log - 1), Pow2(log), space)
  }

  function DecodeBlock(key: DirectKey, block: Block): (r: Outcome<nat>)
  {
    if block.messageModulus != key.messageModulus || block.carryModulus != key.carryModulus then
      Err(ModuliMismatch)
    else if block.pattern != KeyswitchBootstrap then
      Err(WrongAtomicPattern)
    else match block.inner
      case MultiBit => Err(MultiBitForm)
      case Classic(packed, dimension) =>
        if dimension != |key.small| then
          Err(DimensionMismatch(dimension, |key.small|))
        else if !(1 <= packed.log < 64) then
          Err(InvalidModulusLog(packed.log))
        else if packed.initialLen != dimension + 1 then
          Err(PackedLenMismatch)
        else if packed.initialLen * packed.log >= TWO64 then
          Err(PackedLenMismatch)
        else if |packed.words| != DivCeil(packed.initialLen * packed.log, 64) then
          Err(PackedLenMismatch)
        else
          var coeffs := Unpack(packed);
          assert forall i :: 0 <= i < |coeffs| ==> coeffs[i] < TWO64 by { LogFits(packed.log); }
          var dec := Phase(coeffs, key.small, packed.log);
          var space := WrappedSpace(key);
          if space == 0 then Panic else Ok(Round(dec, space, packed.log))
  }

  lemma LogFits(log: nat)
    requires log < 64
    ensures Pow2(log) < TWO64
    ensures log > 0 ==> Pow2(log) == 2 * Pow2(log - 1)
  {
    var width: nat :| width == 64;
    Pow2Word(width);
    Pow2Monotone(log, width);
  }

  // ----- Validation before unpacking ------------------------------------------

  /** The block survives every check made before the decryption arithmetic. */
  ghost predicate Admissible(key: DirectKey, block: Block)
  {
    && block.messageModulus == key.messageModulus
    && block.carryModulus == key.carryModulus
    && block.pattern == KeyswitchBootstrap
    && block.inner.Classic?
    && var p := block.inner.packed;
    && block.inner.dimension == |key.small|
    && 1 <= p.log < 64
    && p.initialLen == |key.small| + 1
    && p.initialLen * p.log < TWO64
    && |p.words| == DivCeil(p.initialLen * p.log, 64)
  }

  /** An admissible block stops the decoder only when the wrapped cleartext
      space is zero, every other block is answered with a rejection. */
  lemma DecodeTotal(key: DirectKey, block: Block)
    ensures DecodeBlock(key, block).Err? <==> !Admissible(key, block)
    ensures DecodeBlock(key, block).Panic?
       <==> Admissible(key, block) && ExactSpace(key) % TWO64 == 0
    ensures DecodeBlock(key, block).Ok? ==> DecodeBlock(key, block).value < WrappedSpace(key) <= ExactSpace(key)
  {
    SpaceWraps(key);
  }

  /** A rejection names what is wrong with the block. */
  lemma RejectionNames(key: DirectKey, block: Block)
    requires DecodeBlock(key, block).Err?
    ensures match DecodeBlock(key, block).error
            case ModuliMismatch => block.messageModulus != key.messageModulus || block.carryModulus != key.carryModulus
            case WrongAtomicPattern => block.pattern != KeyswitchBootstrap
            case MultiBitForm => block.inner.MultiBit?
            case DimensionMismatch(got, want) => block.inner.Classic? && got == block.inner.dimension != want == |key.small|
            case InvalidModulusLog(log) => block.inner.Classic? && log == block.inner.packed.log && (log == 0 || log >= 64)
            case PackedLenMismatch =>
              && block.inner.Classic?
              && var p := block.inner.packed;
              && (|| p.initialLen != block.inner.dimension + 1 || p.initialLen * p.log >= TWO64
                  || |p.words| != DivCeil(p.initialLen * p.log, 64))
            case _ => false
  {
  }

  /** Every key whose cleartext space wraps to zero is stopped by some block that
      passes all the checks: a panic is a reachable answer, not a possible one. */
  lemma PanicReachable(key: DirectKey) returns (block: Block)
    requires ExactSpace(key) % TWO64 == 0 && |key.small| + 1 < TWO64
    ensures Admissible(key, block) && DecodeBlock(key, block) == Panic
  {
    var n := |key.small| + 1;
    var words := seq(DivCeil(n, 64), i => 0);
    block := Block(Classic(Packed(words, 1, n), n - 1), key.messageModulus, key.carryModulus, KeyswitchBootstrap);
    assert n * 1 == n;
    DecodeTotal(key, block);
  }

  /** The smallest such key for a power-of-two message modulus: 2^63 with one
      carry level, of dimension zero. */
  lemma PanicExample() returns (key: DirectKey, block: Block)
    ensures key.messageModulus == 0x8000_0000_0000_0000 && key.carryModulus == 1
    ensures DecodeBlock(key, block) == Panic
  {
    key := DirectKey([], 0x8000_0000_0000_0000, 1);
    block := PanicReachable(key);
  }

  lemma SpaceWraps(key: DirectKey)
    ensures WrappedSpace(key) == ExactSpace(key) % TWO64
    ensures ExactSpace(key) < TWO64 ==> WrappedSpace(key) == ExactSpace(key)
  {
    ModMulCong(WrappingMul(2, key.messageModulus), 2 * key.messageModulus, key.carryModulus, TWO64);
    ModSelf(2 * key.messageModulus % TWO64, TWO64);
    if ExactSpace(key) < TWO64 {
      ModSelf(ExactSpace(key), TWO64);
    }
  }

  /** Every coefficient of an admissible block lies inside the word array, and
      a read of at most two neighbouring words yields it. */
  lemma WindowInBounds(key: DirectKey, block: Block, i: nat)
    requires Admissible(key, block) && i <= |key.small|
    ensures var p := block.inner.packed;
            var q, r := i * p.log / 64, i * p.log % 64;
            && (i + 1) * p.log <= 64 * |p.words|
            && q < |p.words|
            && (r + p.log > 64 ==> q + 1 < |p.words|)
            && (i + 1) * p.log <= 64 * (q + 2)
            && Unpack(p)[i] == TwoWordRead(p.words[q], if q + 1 < |p.words| then p.words[q + 1] else 0, r, p.log)
  {
    var p := block.inner.packed;
    var q, r := i * p.log / 64, i * p.log % 64;
    var n := p.initialLen;
    assert (i + 1) * p.log <= n * p.log by { MulMonotone(i + 1, n, p.log); }
    assert (i + 1) * p.log == i * p.log + p.log;
    assert 64 * |p.words| >= n * p.log;
    WindowRead(p.words, p.log, i);
  }

  /** Bits [r, r+log) of two adjacent words. */
  function TwoWordRead(lo: u64, hi: u64, r: nat, log: nat): (out: nat)
  {
    (lo + TWO64 * hi) / Pow2(r) % Pow2(log)
  }

  lemma WindowRead(words: seq<u64>, log: nat, i: nat)
    requires 1 <= log < 64
    requires i * log / 64 < |words|
    ensures var q, r := i * log / 64, i * log % 64;
            Coefficient(words, log, i)
            == TwoWordRead(words[q], if q + 1 < |words| then words[q + 1] else 0, r, log)
  {
    var q, r := i * log / 64, i * log % 64;
    calc {
      WordsValue(words) / Pow2(i * log);
      { Pow2Add(64 * q, r); DivDiv(WordsValue(words), Pow2(64 * q), Pow2(r)); }
      WordsValue(words) / Pow2(64 * q) / Pow2(r);
      { DropWords(words, q); }
      WordsValue(words[q..]) / Pow2(r);
    }
    var rest := TailValue(words, q);
    DropHighBits(words[q] + TWO64 * (if q + 1 < |words| then words[q + 1] else 0), rest, r, log);
  }

  /** Bits from 128 upwards do not reach the window [r, r + log). */
  lemma DropHighBits(two: nat, rest: nat, r: nat, log: nat)
    requires r + log <= 128
    ensures (two + TWO128 * rest) / Pow2(r) % Pow2(log) == two / Pow2(r) % Pow2(log)
  {
    var width: nat :| width == 128;
    var spare := width - r - log;
    Pow2Split(width, r);
    Pow2Add(log, spare);
    RegroupPowers(Pow2(spare), rest, Pow2(log), Pow2(r));
    DigitIgnoresHigh(two, Pow2(spare) * rest, Pow2(r), Pow2(log));
  }

  lemma RegroupPowers(a: int, b: int, c: int, d: int)
    ensures ((a * b) * c) * d == (d * (c * a)) * b
  {
    MulAssoc(a, b, c);
    MulAssoc(a, b * c, d);
  }

  /** The words above position q + 1, and the split of the number at q. */
  lemma TailValue(words: seq<u64>, q: nat) returns (rest: nat)
    requires q < |words|
    ensures WordsValue(words[q..])
         == words[q] + TWO64 * (if q + 1 < |words| then words[q + 1] else 0) + TWO128 * rest
  {
    assert words[q..][1..] == words[q + 1..];
    if q + 1 < |words| {
      assert words[q + 1..][1..] == words[q + 2..];
      rest := WordsValue(words[q + 2..]);
    } else {
      rest := 0;
    }
  }

  lemma {:induction false} DropWords(words: seq<u64>, q: nat)
    requires q <= |words|
    ensures WordsValue(words) / Pow2(64 * q) == WordsValue(words[q..])
  {
    if q == 0 {
      assert words[0..] == words;
    } else {
      DropWords(words[1..], q - 1);
      assert words[1..][q - 1..] == words[q..];
      var width: nat :| width == 64;
      Pow2Word(width);
      Pow2Add(width, 64 * (q - 1));
      DropOneWord(words[0], WordsValue(words[1..]), Pow2(64 * (q - 1)));
    }
  }

  lemma DropOneWord(w: u64, rest: nat, p: nat)
    requires p > 0
    ensures (w + TWO64 * rest) / (TWO64 * p) == rest / p
  {
    DivDiv(w + TWO64 * rest, TWO64, p);
    DivModUnique(w + TWO64 * rest, TWO64, rest, w);
  }

  // ----- Wrapping arithmetic refines exact arithmetic ---------------------------

  lemma WrappingDotExact(mask: seq<u64>, sk: seq<u64>, acc: u64)
    ensures WrappingDot(mask, sk, acc) % TWO64 == (acc + Dot(mask, sk)) % TWO64
  {
    WrappingDotModulo(mask, sk, acc, TWO64);
  }

  /** The modulus of the machine word, by name. */
  ghost predicate IsWordModulus(d: nat)
  {
    d == TWO64
  }

  lemma {:induction false} WrappingDotModulo(mask: seq<u64>, sk: seq<u64>, acc: u64, d: nat)
    requires d > 0 && IsWordModulus(d)
    ensures WrappingDot(mask, sk, acc) % d == (acc + Dot(mask, sk)) % d
  {
    hide IsWordModulus;
    if mask != [] && sk != [] {
      var p, step := UnrollDots(mask, sk, acc, d);
      hide *;
      WrappingDotModulo(mask[1..], sk[1..], step, d);
      ReducedStep(acc, p, Dot(mask[1..], sk[1..]), d);
    }
  }

  /** The first product of both folds, and the wrapped accumulator after it. */
  lemma UnrollDots(mask: seq<u64>, sk: seq<u64>, acc: u64, d: nat) returns (p: int, step: u64)
    requires mask != [] && sk != [] && d > 0 && IsWordModulus(d)
    ensures step == (acc + p % d) % d
    ensures Dot(mask, sk) == p + Dot(mask[1..], sk[1..])
    ensures WrappingDot(mask, sk, acc) == WrappingDot(mask[1..], sk[1..], step)
  {
    p := (mask[0] as int) * (sk[0] as int);
    step := WrappingAdd(acc, WrappingMul(mask[0], sk[0]));
  }

  /** Reducing a product and a sum on the way changes nothing modulo d. */
  lemma ReducedStep(acc: int, p: int, rest: int, d: int)
    requires d > 0
    ensures ((acc + p % d) % d + rest) % d == (acc + (p + rest)) % d
  {
    var step := (acc + p % d) % d;
    ModSelf(p % d, d);
    ModAddCong(p % d, p, acc, d);
    ModSelf(step, d);
    ModAddCong(step, acc + p, rest, d);
  }

  /** Fold, subtraction and mask in u64 compute the phase modulo 2^log exactly. */
  lemma PhaseExact(coeffs: seq<nat>, sk: seq<u64>, log: nat)
    requires |coeffs| > 0 && log < 64
    requires forall i :: 0 <= i < |coeffs| ==> coeffs[i] < TWO64
    ensures Phase(coeffs, sk, log)
         == (coeffs[|coeffs| - 1] - Dot(coeffs[..|coeffs| - 1], sk)) % Pow2(log)
  {
    var mask: seq<u64> := coeffs[..|coeffs| - 1];
    WrappingDotExact(mask, sk, 0);
    var width: nat :| width == 64;
    Pow2Split(width, log);
    MaskedDifference(coeffs[|coeffs| - 1], WrappingDot(mask, sk, 0), Dot(mask, sk),
                     Pow2(log), Pow2(width - log));
  }

  lemma MaskedDifference(body: int, x: int, y: int, a: int, b: int)
    requires a > 0 && b > 0 && a * b > 0
    requires x % (a * b) == y % (a * b)
    ensures (body - x) % (a * b) % a == (body - y) % a
  {
    ModSubCong(x, y, body, a * b);
    ModMod(body - y, a, b);
  }

  // ----- Rounding to the nearest level ------------------------------------------

  lemma ProductFits(a: u64, b: u64, c: u64)
    ensures 0 <= a * b && a * b + c < TWO128
  {
    var top: int := TWO64 - 1;
    MulMonotone(0, a, b);
    MulMonotone(a, top, b);
    MulMonotone(b, top, top);
  }

  lemma ScaledBound(dec: int, space: int, half: int)
    requires 0 <= dec < 2 * half && 0 < space
    ensures dec * space + half < (space + 1) * (2 * half)
  {
    MulMonotone(dec, 2 * half - 1, space);
    MulDistrib(space, 2 * half, 1);
    MulDistrib(2 * half, space, 1);
  }

  /** The u128 computation never wraps and the cast to u64 loses nothing. */
  lemma RoundExact(dec: nat, space: u64, log: nat)
    requires space > 0 && 1 <= log < 64 && dec < Pow2(log)
    ensures Round(dec, space, log) == (dec * space + Pow2(log - 1)) / Pow2(log) % space
    ensures (dec * space + Pow2(log - 1)) / Pow2(log) <= space
  {
    LogFits(log);
    var half := Pow2(log - 1);
    hide Pow2, RoundProduct;
    ProductFits(dec, space, half);
    ScaledBound(dec, space, half);
    RoundNoWrap(dec * space, half, space, Pow2(log));
  }

  lemma RoundNoWrap(product: nat, half: nat, space: u64, q: nat)
    requires product + half < TWO128 && q > 0 && space > 0
    requires product + half < (space + 1) * q
    ensures RoundProduct(product, half, q, space) == (product + half) / q % space
    ensures (product + half) / q <= space
  {
    ModSelf(product, TWO128);
    ModSelf(product + half, TWO128);
    DivBound(product + half, q, space + 1);
    var rounded := (product + half) / q;
    assert RoundProduct(product, half, q, space) == rounded % TWO64 % space;
    hide *;
    ModSelf(rounded, TWO64);
  }

  /** The rounded quotient r is the one integer with
      -delta <= 2 * (dec - r * delta) < delta, when Pow2(log) == space * delta. */
  lemma NearestLevel(dec: nat, space: nat, delta: int, log: nat, r: int)
    requires space > 0 && delta > 0 && log >= 1 && Pow2(log) == space * delta
    ensures r == (dec * space + Pow2(log - 1)) / Pow2(log)
       <==> -delta <= 2 * (dec - r * delta) < delta
  {
    var q := Pow2(log);
    var num := dec * space + Pow2(log - 1);
    var n2 := 2 * dec + delta;
    assert 2 * num == n2 * space by {
      MulDistrib(space, 2 * dec, delta);
      MulAssoc(2, dec, space);
    }
    assert r * q == (r * delta) * space by { MulAssoc(r, delta, space); }
    assert (r + 1) * q == r * q + q;
    var lo, hi := 2 * (r * delta), 2 * (r * delta) + 2 * delta;
    assert 2 * (r * q) == lo * space by { MulAssoc(2, r * delta, space); }
    assert 2 * ((r + 1) * q) == hi * space by {
      MulDistrib(space, lo, 2 * delta);
      MulAssoc(2, delta, space);
    }
    if r == num / q {
      DivModDef(num, q);
      CompareScaled(lo, n2, space);
      CompareScaled(hi, n2, space);
    }
    if lo <= n2 < hi {
      CompareScaled(lo, n2, space);
      CompareScaled(hi, n2, space);
      DivModUnique(num, q, r, num - r * q);
    }
  }

  lemma CompareScaled(a: int, b: int, c: int)
    requires c > 0
    ensures a * c <= b * c <==> a <= b
    ensures a * c < b * c <==> a < b
  {
    if a < b {
      MulStrict(a, b, c);
    } else {
      MulMonotone(b, a, c);
    }
  }

  // ----- The decoding theorem -----------------------------------------------------

  /** `body` is an LWE body of level m: it differs from the inner product and
      from m steps of delta by a noise e inside half a step, modulo q. */
  ghost predicate NoisyLevel(body: int, dot: int, m: int, e: int, delta: int, q: nat)
    requires q > 0
  {
    -delta <= 2 * e < delta && (body - dot - m * delta - e) % q == 0
  }

  ghost predicate IsLevel(body: int, dot: int, m: int, delta: int, q: nat)
    requires q > 0
  {
    exists e :: NoisyLevel(body, dot, m, e, delta, q)
  }

  /** A phase that rounds to m lies within half a step of m levels. */
  lemma RoundedIsNoisy(body: int, dot: int, space: nat, delta: int, log: nat, m: nat, r: int)
    requires 1 <= log && space > 0 && delta > 0 && Pow2(log) == space * delta
    requires r % space == m % space
    requires -delta <= 2 * ((body - dot) % Pow2(log) - r * delta) < delta
    ensures IsLevel(body, dot, m, delta, Pow2(log))
  {
    var q := Pow2(log);
    var e := (body - dot) % q - r * delta;
    var k := CongruentMultiple(r, m, space);
    assert r * delta == m * delta + k * q by {
      MulDistrib(delta, m, k * space);
      MulAssoc(k, space, delta);
    }
    DivModDef(body - dot, q);
    var j := (body - dot) / q;
    assert body - dot - m * delta - e == (j + k) * q by { MulDistrib(q, j, k); }
    MulDivCancel(j + k, q);
    assert NoisyLevel(body, dot, m, e, delta, q);
  }

  /** A phase within half a step of m levels is within half a step of some r
      levels with r congruent to m modulo the number of levels. */
  lemma NoisyIsRounded(body: int, dot: int, space: nat, delta: int, log: nat, m: nat, e: int) returns (r: int)
    requires 1 <= log && space > 0 && delta > 0 && Pow2(log) == space * delta
    requires NoisyLevel(body, dot, m, e, delta, Pow2(log))
    ensures r % space == m % space
    ensures (body - dot) % Pow2(log) - r * delta == e
  {
    var q := Pow2(log);
    var dec := (body - dot) % q;
    var j := (body - dot) / q;
    var t := (body - dot - m * delta - e) / q;
    DivModDef(body - dot, q);
    DivModDef(body - dot - m * delta - e, q);
    r := m + (t - j) * space;
    assert dec - m * delta - e == (t - j) * q by { MulDistrib(q, t, j); }
    assert r * delta == m * delta + (t - j) * q by {
      MulDistrib(delta, m, (t - j) * space);
      MulAssoc(t - j, space, delta);
    }
    ModAddMultiple(m, t - j, space);
  }

  /** Decoding the phase gives m exactly when the phase is m levels plus noise
      inside half a level; m = 0 reached from above the top level included. */
  lemma PhaseDecodes(body: int, dot: int, space: u64, delta: int, log: nat, m: nat)
    requires 1 <= log < 64 && space > 0 && delta > 0 && Pow2(log) == space * delta
    ensures Round((body - dot) % Pow2(log), space, log) == m % space
       <==> IsLevel(body, dot, m, delta, Pow2(log))
  {
    var dec := (body - dot) % Pow2(log);
    RoundExact(dec, space, log);
    var r := (dec * space + Pow2(log - 1)) / Pow2(log);
    NearestLevel(dec, space, delta, log, r);
    if r % space == m % space {
      RoundedIsNoisy(body, dot, space, delta, log, m, r);
    }
    if IsLevel(body, dot, m, delta, Pow2(log)) {
      var e :| NoisyLevel(body, dot, m, e, delta, Pow2(log));
      var r' := NoisyIsRounded(body, dot, space, delta, log, m, e);
      NearestLevel(dec, space, delta, log, r');
    }
  }

  function Delta(key: DirectKey, log: nat): (r: int)
    requires ExactSpace(key) > 0
  {
    Pow2(log) / ExactSpace(key)
  }

  /** The block is an encryption of level m under the key: the body carries m
      steps of Delta above the inner product, with noise inside half a step. */
  ghost predicate Encrypts(key: DirectKey, block: Block, m: nat)
  {
    && Admissible(key, block)
    && 0 < ExactSpace(key) < TWO64
    && var p := block.inner.packed;
    && Pow2(p.log) % ExactSpace(key) == 0
    && var cs := Unpack(p);
    && IsLevel(cs[|cs| - 1], Dot(cs[..|cs| - 1], key.small), m, Delta(key, p.log), Pow2(p.log))
  }

  /** Whatever the dimension, key, mask and modulus: an admissible block decodes
      to m modulo the cleartext space if and only if it encrypts m. */
  lemma DecodeExactlyEncrypted(key: DirectKey, block: Block, m: nat)
    requires Admissible(key, block)
    requires 0 < ExactSpace(key) < TWO64
    requires Pow2(block.inner.packed.log) % ExactSpace(key) == 0
    ensures DecodeBlock(key, block) == Ok(m % ExactSpace(key)) <==> Encrypts(key, block, m)
  {
    var p := block.inner.packed;
    var space := ExactSpace(key);
    var cs := Unpack(p);
    LogFits(p.log);
    SpaceWraps(key);
    PhaseExact(cs, key.small, p.log);
    DivModDef(Pow2(p.log), space);
    assert Delta(key, p.log) > 0;
    PhaseDecodes(cs[|cs| - 1], Dot(cs[..|cs| - 1], key.small), space, Delta(key, p.log), p.log, m);
  }

  // ----- Encryption and packing: encryptions exist --------------------------------

  /** The coefficients laid out one after the other, low bits first. */
  function PackValue(cs: seq<nat>, log: nat): (r: nat)
  {
    if cs == [] then 0 else cs[0] + Pow2(log) * PackValue(cs[1..], log)
  }

  function ToWords(v: nat, n: nat): (ws: seq<u64>)
    ensures |ws| == n
  {
    if n == 0 then [] else [v % TWO64] + ToWords(v / TWO64, n - 1)
  }

  /** A mask of the key's length whose packed form has a length in a word. */
  ghost predicate MaskFits(key: DirectKey, mask: seq<nat>, log: u64)
  {
    && 1 <= log < 64 && |mask| == |key.small|
    && |mask| + 1 < TWO64 && (|mask| + 1) * log < TWO64
    && forall i :: 0 <= i < |mask| ==> mask[i] < Pow2(log)
  }

  ghost function EncryptBlock(key: DirectKey, mask: seq<nat>, log: u64, m: nat, e: int): (r: Block)
    requires MaskFits(key, mask, log) && ExactSpace(key) > 0
  {
    var body := Body(key, mask, log, m, e);
    var words := ToWords(PackValue(mask + [body], log), DivCeil((|mask| + 1) * log, 64));
    Block(Classic(Packed(words, log, |mask| + 1), |mask|),
          key.messageModulus, key.carryModulus, KeyswitchBootstrap)
  }

  lemma {:induction false} PackBound(cs: seq<nat>, log: nat)
    requires forall i :: 0 <= i < |cs| ==> cs[i] < Pow2(log)
    ensures PackValue(cs, log) < Pow2(|cs| * log)
  {
    if cs == [] {
      assert |cs| * log == 0;
    } else {
      PackBound(cs[1..], log);
      var n := |cs| - 1;
      assert |cs| * log == log + n * log;
      Pow2Add(log, n * log);
      DigitBound(cs[0], PackValue(cs[1..], log), Pow2(log), Pow2(n * log));
    }
  }

  lemma DigitBound(lo: nat, hi: nat, b: nat, n: nat)
    requires lo < b && hi < n
    ensures lo + b * hi < b * n
  {
    MulMonotone(hi + 1, n, b);
    MulDistrib(b, hi, 1);
  }

  lemma {:induction false} WordsRoundTrip(v: nat, n: nat)
    requires v < Pow2(64 * n)
    ensures WordsValue(ToWords(v, n)) == v
  {
    if n > 0 {
      assert ToWords(v, n)[1..] == ToWords(v / TWO64, n - 1);
      assert WordsValue(ToWords(v, n)) == v % TWO64 + TWO64 * WordsValue(ToWords(v / TWO64, n - 1));
      HigherWords(v, n);
      hide *;
      WordsRoundTrip(v / TWO64, n - 1);
      DivModDef(v, TWO64);
    }
  }

  lemma HigherWords(v: nat, n: nat)
    requires n > 0 && v < Pow2(64 * n)
    ensures v / TWO64 < Pow2(64 * (n - 1))
  {
    hide Pow2;
    var width: nat :| width == 64;
    Pow2Word(width);
    Pow2Add(64 * (n - 1), width);
    DivBound(v, TWO64, Pow2(64 * (n - 1)));
  }

  lemma {:induction false} UnpackOfPack(cs: seq<nat>, log: nat, i: nat)
    requires forall k :: 0 <= k < |cs| ==> cs[k] < Pow2(log)
    requires i < |cs|
    ensures PackValue(cs, log) / Pow2(i * log) % Pow2(log) == cs[i]
  {
    var v, rest := PackValue(cs, log), PackValue(cs[1..], log);
    assert v == rest * Pow2(log) + cs[0];
    DivModUnique(v, Pow2(log), rest, cs[0]);
    if i == 0 {
      assert i * log == 0;
    } else {
      assert i * log == log + (i - 1) * log;
      Pow2Add(log, (i - 1) * log);
      DivDiv(v, Pow2(log), Pow2((i - 1) * log));
      UnpackOfPack(cs[1..], log, i - 1);
    }
  }

  /** Packing then unpacking gives the coefficients back. */
  lemma PackRoundTrip(cs: seq<nat>, log: u64)
    requires 0 < |cs| < TWO64 && forall k :: 0 <= k < |cs| ==> cs[k] < Pow2(log)
    ensures var words := ToWords(PackValue(cs, log), DivCeil(|cs| * log, 64));
            Unpack(Packed(words, log, |cs|)) == cs
  {
    var n := DivCeil(|cs| * log, 64);
    PackBound(cs, log);
    Pow2Monotone(|cs| * log, 64 * n);
    WordsRoundTrip(PackValue(cs, log), n);
    forall i | 0 <= i < |cs|
      ensures Coefficient(ToWords(PackValue(cs, log), n), log, i) == cs[i]
    {
      UnpackOfPack(cs, log, i);
    }
  }

  /** A usable mask and modulus, and noise inside half a step. */
  ghost predicate EncryptionParameters(key: DirectKey, mask: seq<nat>, log: u64, e: int)
  {
    && MaskFits(key, mask, log)
    && 0 < ExactSpace(key) < TWO64 && Pow2(log) % ExactSpace(key) == 0
    && -Delta(key, log) <= 2 * e < Delta(key, log)
  }

  function Body(key: DirectKey, mask: seq<nat>, log: nat, m: nat, e: int): (body: nat)
    requires ExactSpace(key) > 0
  {
    (Dot(mask, key.small) + m * Delta(key, log) + e) % Pow2(log)
  }

  /** The block passes every check, and unpacks to the mask and the body. */
  lemma EncryptedBlockUnpacks(key: DirectKey, mask: seq<nat>, log: u64, m: nat, e: int)
    requires MaskFits(key, mask, log) && ExactSpace(key) > 0
    ensures var block := EncryptBlock(key, mask, log, m, e);
            Admissible(key, block) && Unpack(block.inner.packed) == mask + [Body(key, mask, log, m, e)]
  {
    hide Dot, Delta, ToWords, PackValue, Unpack, Pow2;
    PackRoundTrip(mask + [Body(key, mask, log, m, e)], log);
  }

  /** A body reduced modulo q is a level with the same noise. */
  lemma BodyIsNoisy(dot: int, m: int, e: int, delta: int, q: nat)
    requires q > 0 && -delta <= 2 * e < delta
    ensures NoisyLevel((dot + m * delta + e) % q, dot, m, e, delta, q)
  {
    var target := dot + m * delta + e;
    DivModDef(target, q);
    assert target % q - target == -(target / q) * q;
    MulDivCancel(-(target / q), q);
  }

  lemma BodyIsLevel(key: DirectKey, mask: seq<nat>, log: u64, m: nat, e: int)
    requires EncryptionParameters(key, mask, log, e)
    ensures IsLevel(Body(key, mask, log, m, e), Dot(mask, key.small), m, Delta(key, log), Pow2(log))
  {
    var dot, delta, q := Dot(mask, key.small), Delta(key, log), Pow2(log);
    var body := Body(key, mask, log, m, e);
    BodyIsNoisy(dot, m, e, delta, q);
    assert NoisyLevel(body, dot, m, e, delta, q) by { hide NoisyLevel, Pow2, Delta, Dot; }
  }

  /** An admissible block that unpacks to a mask and a level of it encrypts that level. */
  lemma UnpackedEncrypts(key: DirectKey, block: Block, mask: seq<nat>, body: nat, m: nat)
    requires Admissible(key, block) && Unpack(block.inner.packed) == mask + [body]
    requires 0 < ExactSpace(key) < TWO64 && Pow2(block.inner.packed.log) % ExactSpace(key) == 0
    requires IsLevel(body, Dot(mask, key.small), m, Delta(key, block.inner.packed.log), Pow2(block.inner.packed.log))
    ensures Encrypts(key, block, m)
  {
    hide IsLevel, Unpack, Dot, Delta, Pow2, ExactSpace;
    var cs := Unpack(block.inner.packed);
    assert cs[..|cs| - 1] == mask && cs[|cs| - 1] == body;
  }

  /** Encrypting any level with noise inside half a step and decoding it
      directly returns that level. */
  lemma EncryptThenDecode(key: DirectKey, mask: seq<nat>, log: u64, m: nat, e: int)
    requires EncryptionParameters(key, mask, log, e)
    ensures var block := EncryptBlock(key, mask, log, m, e);
            Encrypts(key, block, m) && DecodeBlock(key, block) == Ok(m % ExactSpace(key))
  {
    var block := EncryptBlock(key, mask, log, m, e);
    assert block.inner.packed.log == log;
    assert MaskFits(key, mask, log) && 0 < ExactSpace(key) < TWO64 && Pow2(log) % ExactSpace(key) == 0;
    hide *;
    EncryptedBlockUnpacks(key, mask, log, m, e);
    BodyIsLevel(key, mask, log, m, e);
    UnpackedEncrypts(key, block, mask, Body(key, mask, log, m, e), m);
    DecodeExactlyEncrypted(key, block, m);
  }
}
