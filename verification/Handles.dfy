/** Ciphertext handles and commitment versions as text, and the byte strings the
    enclave signs (src/http.rs, src/signing/service.rs, src/commitment.rs,
    src/cofhe_layout.rs). Text is the sequence of its UTF-8 bytes. */
module Handles {
  import opened Arith
  import opened Options
  import opened Radix

  type byte = b: nat | b < 256

  // ----- Hex digits ---------------------------------------------------------------

  const LOWER_PREFIX: seq<byte> := [48, 120]   // "0x"
  const UPPER_PREFIX: seq<byte> := [48, 88]    // "0X"

  function HexDigit(c: byte): (d: Option<nat>)
    ensures d.Some? ==> d.value < 16
  {
    if 48 <= c <= 57 then Some(c - 48)
    else if 65 <= c <= 70 then Some(c - 55)
    else if 97 <= c <= 102 then Some(c - 87)
    else None
  }

  predicate AllHex(s: seq<byte>)
  {
    forall i :: 0 <= i < |s| ==> HexDigit(s[i]).Some?
  }

  function Lowercase(c: byte): (r: byte)
  {
    if 65 <= c <= 90 then c + 32 else c
  }

  function Lowered(s: seq<byte>): (r: seq<byte>)
    ensures |r| == |s|
  {
    seq(|s|, i requires 0 <= i < |s| => Lowercase(s[i]))
  }

  /** `0x` is tried before `0X`, and one prefix at most is dropped. */
  function Stripped(s: seq<byte>): (r: seq<byte>)
  {
    if LOWER_PREFIX <= s || UPPER_PREFIX <= s then s[2..] else s
  }

  /** The number the digits spell in base 16. */
  function Radix16(s: seq<byte>): (r: nat)
    requires AllHex(s)
  {
    if s == [] then 0 else Radix16(s[..|s| - 1]) * 16 + HexDigit(s[|s| - 1]).value
  }

  function LowerDigit(d: nat): (r: byte)
    requires d < 16
  {
    if d < 10 then 48 + d else 87 + d
  }

  /** The last n lowercase hex digits of v. */
  function HexOf(v: nat, n: nat): (s: seq<byte>)
    ensures |s| == n
  {
    if n == 0 then [] else HexOf(v / 16, n - 1) + [LowerDigit(v % 16)]
  }

  lemma {:induction false} Radix16Bound(s: seq<byte>)
    requires AllHex(s)
    ensures Radix16(s) < Pow2(4 * |s|)
  {
    if s != [] {
      Radix16Bound(s[..|s| - 1]);
      Pow2Byte();
      Pow2Add(4 * (|s| - 1), 4);
    }
  }

  lemma HandleFits(s: seq<byte>)
    requires AllHex(s) && |s| == 64
    ensures Radix16(s) < TWO256
  {
    Radix16Bound(s);
    Pow2Word(4 * |s|);
  }

  lemma LoweredDigit(c: byte)
    requires HexDigit(c).Some?
    ensures HexDigit(Lowercase(c)) == HexDigit(c)
    ensures LowerDigit(HexDigit(c).value) == Lowercase(c) == Lowercase(Lowercase(c))
  {
  }

  lemma LoweredHex(s: seq<byte>)
    requires AllHex(s)
    ensures AllHex(Lowered(s)) && Lowered(Lowered(s)) == Lowered(s)
  {
    forall i | 0 <= i < |s|
      ensures HexDigit(Lowered(s)[i]).Some? && Lowered(Lowered(s))[i] == Lowered(s)[i]
    {
      LoweredDigit(s[i]);
    }
  }

  /** Case does not change the number, and the lowercase spelling is a function
      of the number. */
  lemma {:induction false} LoweredSpelling(s: seq<byte>)
    requires AllHex(s)
    ensures AllHex(Lowered(s)) && Lowered(Lowered(s)) == Lowered(s)
    ensures Lowered(s) == HexOf(Radix16(s), |s|)
    ensures Radix16(Lowered(s)) == Radix16(s)
  {
    LoweredHex(s);
    hide AllHex, Lowered, HexDigit, Lowercase, LowerDigit;
    if s == [] {
      assert Lowered(s) == [];
    } else {
      var front, c := s[..|s| - 1], s[|s| - 1];
      AllHexSnoc(front, c);
      assert s == front + [c];
      LoweredSpelling(front);
      LoweredDigit(c);
      LoweredSnoc(front, c);
      DivModUnique(Radix16(s), 16, Radix16(front), HexDigit(c).value);
      assert Lowered(s)[..|s| - 1] == Lowered(front);
    }
  }

  lemma AllHexSnoc(front: seq<byte>, c: byte)
    ensures AllHex(front + [c]) <==> AllHex(front) && HexDigit(c).Some?
  {
    assert (front + [c])[|front|] == c;
    assert AllHex(front + [c]) ==> AllHex((front + [c])[..|front|]);
    assert (front + [c])[..|front|] == front;
  }

  lemma LoweredSnoc(front: seq<byte>, c: byte)
    ensures Lowered(front + [c]) == Lowered(front) + [Lowercase(c)]
  {
  }

  lemma {:induction false} HexOfSpelled(v: nat, n: nat)
    ensures AllHex(HexOf(v, n)) && Lowered(HexOf(v, n)) == HexOf(v, n)
  {
    if n > 0 {
      var front, c := HexOf(v / 16, n - 1), LowerDigit(v % 16);
      HexOfSpelled(v / 16, n - 1);
      assert HexDigit(c).Some? && Lowercase(c) == c;
      AllHexSnoc(front, c);
      LoweredSnoc(front, c);
    }
  }

  lemma {:induction false} HexOfReads(v: nat, n: nat)
    ensures AllHex(HexOf(v, n)) && Radix16(HexOf(v, n)) == v % Pow2(4 * n)
  {
    HexOfSpelled(v, n);
    if n > 0 {
      var front, c := HexOf(v / 16, n - 1), LowerDigit(v % 16);
      HexOfReads(v / 16, n - 1);
      assert HexDigit(c) == Some(v % 16);
      assert HexOf(v, n)[..n - 1] == front;
      var p := Pow2(4 * (n - 1));
      hide AllHex, Lowered, HexDigit, LowerDigit, HexOf, Pow2;
      assert Pow2(4 * n) == 16 * p by { Pow2Nibble(n); }
      LowDigits(v, 16, p);
    }
  }

  lemma Pow2Nibble(n: nat)
    requires n > 0
    ensures Pow2(4 * n) == 16 * Pow2(4 * (n - 1))
  {
    Pow2Byte();
    Pow2Add(4, 4 * (n - 1));
  }

  // ----- Handle::parse --------------------------------------------------------------

  datatype Handle = Handle(hex: seq<byte>, u256: nat)

  /** `U256::from_str_radix(_, 16)`: refuses what does not fit 256 bits. */
  function FromStrRadix16(digits: seq<byte>): (r: Option<nat>)
  {
    if AllHex(digits) && Radix16(digits) < TWO256 then Some(Radix16(digits)) else None
  }

  function ParseHandle(raw: seq<byte>): (r: Option<Handle>)
  {
    var digits := Stripped(raw);
    if |digits| != 64 || !AllHex(digits) then None
    else
      match FromStrRadix16(digits)
      case None => None
      case Some(v) => Some(Handle(LOWER_PREFIX + Lowered(digits), v))
  }

  // ----- parse_ct_hash --------------------------------------------------------------

  datatype HexError = OddLength | InvalidCharacter(c: byte, index: nat) | WrongLength(len: nat)

  /** `hex::decode` from position i on: two digits a byte, the first bad
      character reported. */
  function DecodePairs(s: seq<byte>, i: nat): (r: Result<seq<byte>, HexError>)
    requires |s| % 2 == 0 && i % 2 == 0 && i <= |s|
    decreases |s| - i
  {
    if i == |s| then Success([])
    else
      match (HexDigit(s[i]), HexDigit(s[i + 1]))
      case (None, _) => Failure(InvalidCharacter(s[i], i))
      case (_, None) => Failure(InvalidCharacter(s[i + 1], i + 1))
      case (Some(high), Some(low)) =>
        match DecodePairs(s, i + 2)
        case Failure(e) => Failure(e)
        case Success(rest) => Success([high * 16 + low] + rest)
  }

  function HexDecode(s: seq<byte>): (r: Result<seq<byte>, HexError>)
  {
    if |s| % 2 == 1 then Failure(OddLength) else DecodePairs(s, 0)
  }

  function ParseCtHash(s: seq<byte>): (r: Result<seq<byte>, HexError>)
  {
    match HexDecode(Stripped(s))
    case Failure(e) => Failure(e)
    case Success(bytes) => if |bytes| == 32 then Success(bytes) else Failure(WrongLength(|bytes|))
  }

  /** Decoding succeeds exactly on hex digits and gives the number's big-endian
      bytes; a refusal points at the first character that is not a digit. */
  lemma {:induction false} DecodePairsExact(s: seq<byte>, i: nat)
    requires |s| % 2 == 0 && i % 2 == 0 && i <= |s|
    requires AllHex(s[..i])
    ensures DecodePairs(s, i).Success? <==> AllHex(s)
    ensures AllHex(s) ==> BigEndian(Radix16(s[..i]), i / 2) + DecodePairs(s, i).value == BigEndian(Radix16(s), |s| / 2)
    ensures !AllHex(s) ==> FirstBad(s, DecodePairs(s, i).error)
    decreases |s| - i
  {
    hide BigEndian, Radix16;
    if i == |s| {
      assert s[..i] == s;
    } else if HexDigit(s[i]).None? {
      assert FirstBad(s, InvalidCharacter(s[i], i));
    } else if HexDigit(s[i + 1]).None? {
      assert FirstBad(s, InvalidCharacter(s[i + 1], i + 1));
    } else {
      ExtendByte(s, i);
      hide HexDigit;
      DecodePairsExact(s, i + 2);
      if AllHex(s) {
        var b := HexDigit(s[i]).value * 16 + HexDigit(s[i + 1]).value;
        var done, rest := BigEndian(Radix16(s[..i]), i / 2), DecodePairs(s, i + 2).value;
        assert done + ([b] + rest) == done + [b] + rest;
      }
    }
  }

  ghost predicate FirstBad(s: seq<byte>, e: HexError)
  {
    && e.InvalidCharacter? && e.index < |s| && e.c == s[e.index]
    && HexDigit(e.c).None? && AllHex(s[..e.index])
  }

  /** Two more digits are one more byte. */
  lemma ExtendByte(s: seq<byte>, i: nat)
    requires i + 2 <= |s| && i % 2 == 0 && AllHex(s[..i + 2])
    ensures AllHex(s[..i]) && HexDigit(s[i]).Some? && HexDigit(s[i + 1]).Some?
    ensures BigEndian(Radix16(s[..i + 2]), (i + 2) / 2)
         == BigEndian(Radix16(s[..i]), i / 2) + [HexDigit(s[i]).value * 16 + HexDigit(s[i + 1]).value]
  {
    assert s[..i + 2][i] == s[i] && s[..i + 2][i + 1] == s[i + 1];
    assert s[..i + 2][..i + 1] == s[..i + 1] && s[..i + 1][..i] == s[..i];
    assert AllHex(s[..i + 2][..i + 1]);
    var high, low := HexDigit(s[i]).value, HexDigit(s[i + 1]).value;
    assert Radix16(s[..i + 1]) == Radix16(s[..i]) * 16 + high;
    DivModUnique(Radix16(s[..i + 2]), 256, Radix16(s[..i]), high * 16 + low);
  }

  // ----- The two parsers agree ------------------------------------------------------

  /** Both parsers accept the same text and denote the same 32 bytes, also when
      the second is given the canonical form the first produced. */
  lemma ParsersAgree(raw: seq<byte>)
    ensures ParseHandle(raw).Some? <==> ParseCtHash(raw).Success?
    ensures ParseHandle(raw).Some? ==>
              var h := ParseHandle(raw).value;
              && ParseCtHash(raw) == ParseCtHash(h.hex) == Success(BigEndian(h.u256, 32))
              && ReadBigEndian(ParseCtHash(raw).value) == h.u256 < TWO256
  {
    hide BigEndian, ReadBigEndian, Radix16, HexOf, HexDecode;
    CtHashExact(raw);
    if ParseHandle(raw).Some? {
      var h := ParseHandle(raw).value;
      CanonicalIdempotent(raw);
      CtHashExact(h.hex);
      ReadBack(h.u256, 32);
    } else if |Stripped(raw)| == 64 && AllHex(Stripped(raw)) {
      HandleFits(Stripped(raw));
    }
  }

  /** `parse_ct_hash` accepts exactly 64 hex digits, and each refusal says why. */
  lemma CtHashExact(raw: seq<byte>)
    ensures var s := Stripped(raw);
            match ParseCtHash(raw)
            case Success(bytes) => |s| == 64 && AllHex(s) && bytes == BigEndian(Radix16(s), 32)
            case Failure(OddLength) => |s| % 2 == 1
            case Failure(WrongLength(n)) => |s| == 2 * n != 64 && AllHex(s)
            case Failure(e) => |s| % 2 == 0 && FirstBad(s, e)
  {
    var s := Stripped(raw);
    if |s| % 2 == 0 {
      assert s[..0] == [];
      DecodePairsExact(s, 0);
      if AllHex(s) {
        assert BigEndian(Radix16(s[..0]), 0) == [];
        assert DecodePairs(s, 0).value == BigEndian(Radix16(s), |s| / 2);
      }
    }
  }

  // ----- Which texts are accepted ---------------------------------------------------

  ghost function Ascii(text: string): (bytes: seq<byte>)
    requires forall i :: 0 <= i < |text| ==> text[i] as int < 128
    ensures |bytes| == |text|
  {
    seq(|text|, i requires 0 <= i < |text| => text[i] as int)
  }

  /** A hex digit is one of sixteen, in either case, and counts as its place. */
  lemma HexDigitsAre(c: byte, v: nat)
    ensures HexDigit(c) == Some(v) <==>
              v < 16 && (c == "0123456789abcdef"[v] as int || c == "0123456789ABCDEF"[v] as int)
    ensures v < 16 ==> LowerDigit(v) == "0123456789abcdef"[v] as int
  {
  }

  lemma Prefixes()
    ensures Ascii("0x") == LOWER_PREFIX && Ascii("0X") == UPPER_PREFIX
  {
  }

  /** The text is 64 hex digits, bare or after `0x` or `0X`. */
  ghost predicate Spells(raw: seq<byte>, digits: seq<byte>)
  {
    && |digits| == 64 && AllHex(digits)
    && (raw == digits || raw == Ascii("0x") + digits || raw == Ascii("0X") + digits)
  }

  /** Both parsers accept exactly these texts ... */
  lemma HandleAcceptedIff(raw: seq<byte>)
    ensures ParseHandle(raw).Some? <==> exists digits :: Spells(raw, digits)
    ensures ParseCtHash(raw).Success? <==> exists digits :: Spells(raw, digits)
  {
    Prefixes();
    if ParseHandle(raw).Some? {
      var digits := Stripped(raw);
      assert LOWER_PREFIX <= raw ==> raw == LOWER_PREFIX + raw[2..];
      assert UPPER_PREFIX <= raw ==> raw == UPPER_PREFIX + raw[2..];
      assert Spells(raw, digits);
    }
    if digits :| Spells(raw, digits) {
      SpelledMeans(raw, digits);
    }
    ParsersAgree(raw);
  }

  /** ... and the digits alone decide the number, the canonical form and the 32
      bytes: neither the prefix nor the case counts. */
  lemma SpelledMeans(raw: seq<byte>, digits: seq<byte>)
    requires Spells(raw, digits)
    ensures ParseHandle(raw) == Some(Handle(Ascii("0x") + Lowered(digits), Radix16(digits)))
    ensures ParseCtHash(raw) == Success(BigEndian(Radix16(digits), 32))
    ensures forall i :: 0 <= i < 64 ==> Lowered(digits)[i] == LowerDigit(HexDigit(digits[i]).value)
  {
    hide Radix16, BigEndian, HexDecode;
    Prefixes();
    assert Stripped(raw) == digits by {
      assert HexDigit(digits[1]).Some?;
      assert raw != digits ==> raw[2..] == digits;
    }
    HandleFits(digits);
    ParsersAgree(raw);
    forall i | 0 <= i < 64
      ensures Lowered(digits)[i] == LowerDigit(HexDigit(digits[i]).value)
    {
      LoweredDigit(digits[i]);
    }
  }

  /** The widths of the integers that are written out: 4, 8 and 32 bytes. */
  lemma ReadBack(v: nat, n: nat)
    ensures n == 32 && v < TWO256 ==> ReadBigEndian(BigEndian(v, n)) == v
    ensures n == 8 && v < TWO64 ==> ReadBigEndian(BigEndian(v, n)) == v
    ensures n == 4 && v < 0x1_0000_0000 ==> ReadBigEndian(BigEndian(v, n)) == v
  {
    hide BigEndian, ReadBigEndian, Pow2;
    ReadBigEndianOf(v, n);
    Pow2Word(8 * n);
    var byte: nat :| byte == 8;
    assert Pow2(byte) == 256 by { Pow2Byte(); }
    Pow2Square(byte, 256);
    Pow2Square(2 * byte, 0x1_0000);
    if v < Pow2(8 * n) {
      ModSelf(v, Pow2(8 * n));
    }
  }

  /** A canonical handle parses to itself. */
  lemma CanonicalIdempotent(raw: seq<byte>)
    requires ParseHandle(raw).Some?
    ensures ParseHandle(ParseHandle(raw).value.hex) == ParseHandle(raw)
  {
    var digits := Stripped(raw);
    LoweredSpelling(digits);
    assert (LOWER_PREFIX + Lowered(digits))[2..] == Lowered(digits);
  }

  /** Every 256-bit value has a canonical spelling, and only one: two requests
      get the same key exactly when they name the same value. */
  lemma CanonicalIffSameValue(a: seq<byte>, b: seq<byte>)
    requires ParseHandle(a).Some? && ParseHandle(b).Some?
    ensures ParseHandle(a).value.hex == ParseHandle(b).value.hex <==> ParseHandle(a).value.u256 == ParseHandle(b).value.u256
    ensures ParseHandle(a).value.hex == LOWER_PREFIX + HexOf(ParseHandle(a).value.u256, 64)
  {
    hide Radix16, HexOf;
    LoweredSpelling(Stripped(a));
    LoweredSpelling(Stripped(b));
    CanonicalIdempotent(a);
  }

  lemma EveryValueSpelled(v: nat)
    requires v < TWO256
    ensures ParseHandle(LOWER_PREFIX + HexOf(v, 64)) == Some(Handle(LOWER_PREFIX + HexOf(v, 64), v))
  {
    hide Radix16, HexOf, Pow2;
    var n: nat :| n == 64;
    HexOfSpelled(v, n);
    HexOfReads(v, n);
    Pow2Word(4 * n);
    ModSelf(v, Pow2(4 * n));
    assert (LOWER_PREFIX + HexOf(v, n))[2..] == HexOf(v, n);
  }

  // ----- parse_version ----------------------------------------------------------------

  datatype VersionError = NoPrefix | VersionLength(len: nat) | NotLowercase | VersionNotHex(e: HexError)

  function ParseVersion(s: seq<byte>): (r: Result<seq<byte>, VersionError>)
  {
    if !(LOWER_PREFIX <= s) then Failure(NoPrefix)
    else
      var digits := s[2..];
      if |digits| != 64 then Failure(VersionLength(|digits|))
      else if exists i :: 0 <= i < |digits| && 65 <= digits[i] <= 90 then Failure(NotLowercase)
      else
        match HexDecode(digits)
        case Failure(e) => Failure(VersionNotHex(e))
        case Success(bytes) => Success(bytes)
  }

  /** A version is accepted exactly when it is the canonical spelling of a
      32-byte key: the text and the key determine each other. */
  lemma VersionIsCanonical(s: seq<byte>)
    ensures ParseVersion(s).Success? <==> ParseHandle(s).Some? && ParseHandle(s).value.hex == s
    ensures ParseVersion(s).Success? ==> ParseVersion(s).value == BigEndian(ParseHandle(s).value.u256, 32)
  {
    if LOWER_PREFIX <= s && |s| == 66 {
      var digits := s[2..];
      assert Stripped(s) == digits && LOWER_PREFIX + digits == s;
      CtHashExact(s);
      if AllHex(digits) {
        HandleFits(digits);
        assert ParseHandle(s) == Some(Handle(LOWER_PREFIX + Lowered(digits), Radix16(digits)));
        if ParseVersion(s).Success? {
          assert Lowered(digits) == digits;
        } else {
          var i :| 0 <= i < |digits| && 65 <= digits[i] <= 90;
          assert Lowered(digits)[i] != digits[i];
          assert s[2..] != (LOWER_PREFIX + Lowered(digits))[2..];
        }
      }
    }
  }

  /** The accepted versions are `0x` and 64 lowercase hex digits. */
  lemma VersionAcceptedIff(s: seq<byte>)
    ensures ParseVersion(s).Success? <==> exists digits :: LowerSpells(s, digits)
    ensures forall digits :: LowerSpells(s, digits) ==> ParseVersion(s) == Success(BigEndian(Radix16(digits), 32))
  {
    hide *;
    VersionIsCanonical(s);
    HandleAcceptedIff(s);
    forall digits | LowerSpells(s, digits)
      ensures AllHex(digits) && ParseVersion(s) == Success(BigEndian(Radix16(digits), 32))
    {
      LowerIsLowered(s, digits);
      SpelledMeans(s, digits);
    }
    if ParseVersion(s).Success? {
      var digits :| Spells(s, digits);
      SpelledMeans(s, digits);
      LoweredSpells(s, digits);
    }
  }

  lemma LowerIsLowered(s: seq<byte>, digits: seq<byte>)
    requires LowerSpells(s, digits)
    ensures Spells(s, digits) && Lowered(digits) == digits && AllHex(digits)
    ensures s == Ascii("0x") + digits
  {
    forall i | 0 <= i < 64
      ensures Lowered(digits)[i] == digits[i]
    {
      LoweredDigit(digits[i]);
    }
  }

  lemma LoweredSpells(s: seq<byte>, digits: seq<byte>)
    requires Spells(s, digits) && s == Ascii("0x") + Lowered(digits)
    ensures LowerSpells(s, Lowered(digits))
  {
    LoweredHex(digits);
    forall i | 0 <= i < 64
      ensures Lowered(digits)[i] == LowerDigit(HexDigit(Lowered(digits)[i]).value)
    {
      LoweredDigit(digits[i]);
    }
  }

  /** A refused version is told why. */
  lemma VersionRefusals(s: seq<byte>)
    requires ParseVersion(s).Failure?
    ensures match ParseVersion(s).error
            case NoPrefix => |s| < 2 || s[..2] != Ascii("0x")
            case VersionLength(n) => |s| == n + 2 && n != 64
            case NotLowercase => |s| == 66 && exists i :: 2 <= i < 66 && 'A' as int <= s[i] <= 'Z' as int
            case VersionNotHex(e) => |s| == 66 && FirstBad(s[2..], e)
  {
    Prefixes();
    if ParseVersion(s).error.NotLowercase? {
      var i :| 0 <= i < 64 && 65 <= s[2..][i] <= 90;
      assert s[i + 2] == s[2..][i];
    } else if ParseVersion(s).error.VersionNotHex? {
      var digits := s[2..];
      assert digits[..0] == [];
      DecodePairsExact(digits, 0);
    }
  }

  ghost predicate LowerSpells(s: seq<byte>, digits: seq<byte>)
  {
    && |digits| == 64 && AllHex(digits) && s == Ascii("0x") + digits
    && forall i :: 0 <= i < |digits| ==> digits[i] == LowerDigit(HexDigit(digits[i]).value)
  }

  lemma OneSpellingPerKey(s: seq<byte>, t: seq<byte>)
    requires ParseVersion(s).Success? && ParseVersion(s) == ParseVersion(t)
    ensures s == t
  {
    VersionIsCanonical(s);
    VersionIsCanonical(t);
    ParsersAgree(s);
    ParsersAgree(t);
    CanonicalIffSameValue(s, t);
  }

  // ----- Metadata bytes of a handle -----------------------------------------------------

  const TYPE_BYTE: nat := 30
  const ZONE_BYTE: nat := 31

  /** The low seven bits of the type byte: the trivial-encryption flag is dropped. */
  function HandleType(handle: seq<nat>): (r: nat)
    requires |handle| == 32
  {
    handle[TYPE_BYTE] % 128
  }

  function HandleZone(handle: seq<nat>): (r: nat)
    requires |handle| == 32
  {
    handle[ZONE_BYTE]
  }

  /** A hash with its last two bytes overwritten by a type, the trivial-encryption
      flag and a zone. */
  function Stamped(v: nat, ty: nat, trivial: bool, zone: nat): (r: nat)
  {
    v / 0x1_0000 * 0x1_0000 + (ty + if trivial then 128 else 0) * 256 + zone
  }

  /** Stamping a hash is read back, whatever the hash and the flag, and every
      handle is the stamp of its own type, flag and zone. */
  lemma MetadataReadsBack(v: nat, ty: nat, trivial: bool, zone: nat)
    requires ty < 128 && zone < 256
    ensures HandleType(BigEndian(Stamped(v, ty, trivial, zone), 32)) == ty
    ensures HandleZone(BigEndian(Stamped(v, ty, trivial, zone), 32)) == zone
    ensures var own := BigEndian(v, 32);
            v == Stamped(v, HandleType(own), own[TYPE_BYTE] >= 128, HandleZone(own))
  {
    hide BigEndian;
    var flagged := ty + if trivial then 128 else 0;
    var stamped := Stamped(v, ty, trivial, zone);
    LastBytes(v, 32);
    LastBytes(stamped, 32);
    DivModUnique(stamped, 256, v / 0x1_0000 * 256 + flagged, zone);
    DivModUnique(stamped / 256, 256, v / 0x1_0000, flagged);
    OwnStamp(v, v / 256 % 256, v % 256);
  }

  lemma OwnStamp(v: nat, flagged: nat, zone: nat)
    requires flagged == v / 256 % 256 && zone == v % 256
    ensures v == Stamped(v, flagged % 128, flagged >= 128, zone)
  {
    DivDiv(v, 256, 256);
    DivModDef(v, 256);
    DivModDef(v / 256, 256);
  }

  lemma LastBytes(v: nat, n: nat)
    requires n >= 2
    ensures BigEndian(v, n)[n - 1] == v % 256 && BigEndian(v, n)[n - 2] == v / 256 % 256
  {
    assert BigEndian(v, n) == BigEndian(v / 256, n - 1) + [v % 256];
    assert BigEndian(v / 256, n - 1) == BigEndian(v / 256 / 256, n - 2) + [v / 256 % 256];
  }

  // ----- What is signed ------------------------------------------------------------------

  type i32 = x: int | -0x8000_0000 <= x < 0x8000_0000

  /** `i32::to_be_bytes`: two's complement. */
  function I32Bytes(x: i32): (bs: seq<nat>)
    ensures |bs| == 4
  {
    BigEndian(if x < 0 then x + 0x1_0000_0000 else x, 4)
  }

  function ReadI32(bs: seq<nat>): (r: int)
  {
    var u := ReadBigEndian(bs);
    if u < 0x8000_0000 then u else u - 0x1_0000_0000
  }

  /** Everything a preimage ends with. */
  function Tail(encryptionType: i32, chainId: u64, ctHash: seq<byte>): (r: seq<nat>)
  {
    I32Bytes(encryptionType) + BigEndian(chainId, 8) + ctHash
  }

  function DecryptPreimage(plaintext: nat, encryptionType: i32, chainId: u64, ctHash: seq<byte>): (r: seq<nat>)
  {
    BigEndian(plaintext, 32) + Tail(encryptionType, chainId, ctHash)
  }

  function SealPreimage(body: seq<nat>, encryptionType: i32, chainId: u64, ctHash: seq<byte>): (r: seq<nat>)
  {
    body + Tail(encryptionType, chainId, ctHash)
  }

  /** What a reader of a preimage finds, the last 44 bytes and what precedes them. */
  datatype Signed = Signed(body: seq<nat>, encryptionType: int, chainId: nat, ctHash: seq<nat>)

  function ReadPreimage(bytes: seq<nat>): (r: Signed)
    requires |bytes| >= 44
  {
    var n := |bytes| - 44;
    Signed(bytes[..n], ReadI32(bytes[n..n + 4]), ReadBigEndian(bytes[n + 4..n + 12]), bytes[n + 12..])
  }

  /** The fields as signed, the handle by its 32 bytes. */
  function SignedFields(body: seq<nat>, encryptionType: int, chainId: nat, text: seq<byte>): (r: Signed)
    requires ParseHandle(text).Some?
  {
    Signed(body, encryptionType, chainId, BigEndian(ParseHandle(text).value.u256, 32))
  }

  /** A preimage is read back field by field, whatever the body. */
  lemma PreimageReadsBack(body: seq<nat>, encryptionType: i32, chainId: u64, ctHash: seq<byte>)
    requires |ctHash| == 32
    ensures var bytes := SealPreimage(body, encryptionType, chainId, ctHash);
            |bytes| == |body| + 44 && ReadPreimage(bytes) == Signed(body, encryptionType, chainId, ctHash)
  {
    hide BigEndian, ReadBigEndian;
    var bytes := SealPreimage(body, encryptionType, chainId, ctHash);
    var n := |body|;
    var unsigned := if encryptionType < 0 then encryptionType + 0x1_0000_0000 else encryptionType;
    ReadBack(unsigned, 4);
    ReadBack(chainId, 8);
    assert bytes[..n] == body;
    assert bytes[n..n + 4] == I32Bytes(encryptionType);
    assert bytes[n + 4..n + 12] == BigEndian(chainId, 8);
    assert bytes[n + 12..] == ctHash;
  }

  /** `sign_decrypt` up to the digest. */
  method SignDecrypt(plaintext: nat, encryptionType: i32, chainId: u64, ctHash: seq<byte>)
    returns (r: Result<seq<nat>, HexError>)
    requires plaintext < TWO256
    ensures r.Success? <==> ParseHandle(ctHash).Some?
    ensures r.Success? ==>
              && ParseCtHash(ctHash).Success?
              && r.value == DecryptPreimage(plaintext, encryptionType, chainId, ParseCtHash(ctHash).value)
    ensures r.Success? ==>
              && |r.value| == 76
              && ReadPreimage(r.value) == SignedFields(BigEndian(plaintext, 32), encryptionType, chainId, ctHash)
              && ReadBigEndian(ReadPreimage(r.value).body) == plaintext
  {
    hide BigEndian, ReadBigEndian, ParseHandle, ParseCtHash, ReadPreimage, ReadI32;
    ParsersAgree(ctHash);
    var preimage: seq<nat> := [];
    preimage := preimage + BigEndian(plaintext, 32);
    preimage := preimage + I32Bytes(encryptionType);
    preimage := preimage + BigEndian(chainId, 8);
    var parsed := ParseCtHash(ctHash);
    if parsed.Failure? {
      return Failure(parsed.error);
    }
    preimage := preimage + parsed.value;
    assert preimage == DecryptPreimage(plaintext, encryptionType, chainId, parsed.value);
    PreimageReadsBack(BigEndian(plaintext, 32), encryptionType, chainId, parsed.value);
    ReadBack(plaintext, 32);
    return Success(preimage);
  }

  /** `sign_sealoutput` up to the digest. */
  method SignSealOutput(sealed: seq<byte>, publicKey: seq<byte>, nonce: seq<byte>,
                        encryptionType: i32, chainId: u64, ctHash: seq<byte>)
    returns (r: Result<seq<nat>, HexError>)
    ensures r.Success? <==> ParseHandle(ctHash).Some?
    ensures r.Success? ==>
              && ParseCtHash(ctHash).Success?
              && r.value == SealPreimage(sealed + publicKey + nonce, encryptionType, chainId, ParseCtHash(ctHash).value)
    ensures r.Success? ==>
              && |r.value| == |sealed| + |publicKey| + |nonce| + 44
              && ReadPreimage(r.value) == SignedFields(sealed + publicKey + nonce, encryptionType, chainId, ctHash)
  {
    hide BigEndian, ReadBigEndian, ParseHandle, ParseCtHash, ReadPreimage, ReadI32;
    ParsersAgree(ctHash);
    var preimage: seq<nat> := [];
    preimage := preimage + sealed;
    preimage := preimage + publicKey;
    preimage := preimage + nonce;
    preimage := preimage + I32Bytes(encryptionType);
    preimage := preimage + BigEndian(chainId, 8);
    var parsed := ParseCtHash(ctHash);
    if parsed.Failure? {
      return Failure(parsed.error);
    }
    preimage := preimage + parsed.value;
    assert preimage == SealPreimage(sealed + publicKey + nonce, encryptionType, chainId, parsed.value);
    PreimageReadsBack(sealed + publicKey + nonce, encryptionType, chainId, parsed.value);
    return Success(preimage);
  }

  /** The four fields of a decrypt result; the handle counts by its value. */
  datatype DecryptFields = DecryptFields(plaintext: nat, encryptionType: i32, chainId: u64, text: seq<byte>)
  {
    ghost predicate Signable() { plaintext < TWO256 && ParseHandle(text).Some? }

    function Preimage(): (r: seq<nat>)
      requires ParseCtHash(text).Success?
    {
      DecryptPreimage(plaintext, encryptionType, chainId, ParseCtHash(text).value)
    }
  }

  datatype SealFields =
    SealFields(sealed: seq<byte>, publicKey: seq<byte>, nonce: seq<byte>, encryptionType: i32, chainId: u64, text: seq<byte>)
  {
    function Body(): (r: seq<nat>) { sealed + publicKey + nonce }

    function Preimage(): (r: seq<nat>)
      requires ParseCtHash(text).Success?
    {
      SealPreimage(Body(), encryptionType, chainId, ParseCtHash(text).value)
    }
  }

  /** Two decrypt preimages are equal exactly when every field is, the handles
      compared by value and not by spelling. */
  lemma DecryptPreimageInjective(a: DecryptFields, b: DecryptFields)
    requires a.Signable() && b.Signable()
    ensures ParseCtHash(a.text).Success? && ParseCtHash(b.text).Success?
    ensures a.Preimage() == b.Preimage()
       <==> (&& a.plaintext == b.plaintext && a.encryptionType == b.encryptionType && a.chainId == b.chainId
             && ParseHandle(a.text).value.u256 == ParseHandle(b.text).value.u256)
  {
    hide BigEndian, ReadBigEndian, ParseHandle, ParseCtHash, ReadPreimage;
    ParsersAgree(a.text);
    ParsersAgree(b.text);
    PreimageReadsBack(BigEndian(a.plaintext, 32), a.encryptionType, a.chainId, ParseCtHash(a.text).value);
    PreimageReadsBack(BigEndian(b.plaintext, 32), b.encryptionType, b.chainId, ParseCtHash(b.text).value);
    ReadBack(a.plaintext, 32);
    ReadBack(b.plaintext, 32);
  }

  /** Two seal preimages are equal exactly when the concatenated bundles and the
      remaining fields are; with a key and a nonce of fixed lengths, exactly when
      every field is. */
  lemma SealPreimageInjective(a: SealFields, b: SealFields)
    requires ParseHandle(a.text).Some? && ParseHandle(b.text).Some?
    ensures ParseCtHash(a.text).Success? && ParseCtHash(b.text).Success?
    ensures a.Preimage() == b.Preimage()
       <==> (&& a.Body() == b.Body() && a.encryptionType == b.encryptionType && a.chainId == b.chainId
             && ParseHandle(a.text).value.u256 == ParseHandle(b.text).value.u256)
    ensures |a.publicKey| == |b.publicKey| && |a.nonce| == |b.nonce| ==>
              (a.Body() == b.Body() <==> a.sealed == b.sealed && a.publicKey == b.publicKey && a.nonce == b.nonce)
  {
    hide BigEndian, ReadBigEndian, ParseHandle, ParseCtHash, ReadPreimage;
    ParsersAgree(a.text);
    ParsersAgree(b.text);
    PreimageReadsBack(a.Body(), a.encryptionType, a.chainId, ParseCtHash(a.text).value);
    PreimageReadsBack(b.Body(), b.encryptionType, b.chainId, ParseCtHash(b.text).value);
    if |a.publicKey| == |b.publicKey| && |a.nonce| == |b.nonce| && a.Body() == b.Body() {
      SplitBody(a);
      SplitBody(b);
    }
  }

  lemma SplitBody(a: SealFields)
    ensures var n, m := |a.sealed|, |a.sealed| + |a.publicKey|;
            && |a.Body()| == m + |a.nonce|
            && a.Body()[..n] == a.sealed && a.Body()[n..m] == a.publicKey && a.Body()[m..] == a.nonce
  {
  }

  /** A decrypt preimage equals a seal preimage only if the bundle is 32 bytes
      long, and then for exactly one plaintext; so never for a 32-byte key and a
      24-byte nonce. */
  lemma PreimagesDisjoint(d: DecryptFields, s: SealFields)
    requires d.Signable() && ParseHandle(s.text).Some?
    ensures ParseCtHash(d.text).Success? && ParseCtHash(s.text).Success?
    ensures d.Preimage() == s.Preimage()
       <==> (&& s.Body() == BigEndian(d.plaintext, 32)
             && d.encryptionType == s.encryptionType && d.chainId == s.chainId
             && ParseHandle(d.text).value.u256 == ParseHandle(s.text).value.u256)
    ensures |s.publicKey| == 32 && |s.nonce| == 24 ==> d.Preimage() != s.Preimage()
  {
    hide BigEndian, ReadBigEndian, ParseHandle, ParseCtHash, ReadPreimage;
    ParsersAgree(d.text);
    ParsersAgree(s.text);
    PreimageReadsBack(BigEndian(d.plaintext, 32), d.encryptionType, d.chainId, ParseCtHash(d.text).value);
    PreimageReadsBack(s.Body(), s.encryptionType, s.chainId, ParseCtHash(s.text).value);
  }

  /** A 32-byte bundle does collide: some plaintext has the same preimage. */
  lemma ShortBundleCollides(s: SealFields)
    requires ParseHandle(s.text).Some? && |s.Body()| == 32
    ensures exists d: DecryptFields ::
              d.Signable() && ParseCtHash(d.text).Success? && ParseCtHash(s.text).Success? && d.Preimage() == s.Preimage()
  {
    hide BigEndian, ReadBigEndian, ParseHandle, ParseCtHash, Pow2;
    ParsersAgree(s.text);
    var plaintext := ReadBigEndian(s.Body());
    AsBytes(s.Body());
    Pow2Word(8 * |s.Body()|);
    var d := DecryptFields(plaintext, s.encryptionType, s.chainId, s.text);
    assert d.Signable() && d.Preimage() == s.Preimage();
  }

  /** A byte string is the big-endian form of the number it spells. */
  lemma {:induction false} AsBytes(bs: seq<nat>)
    requires forall i :: 0 <= i < |bs| ==> bs[i] < 256
    ensures BigEndian(ReadBigEndian(bs), |bs|) == bs
    ensures ReadBigEndian(bs) < Pow2(8 * |bs|)
  {
    if bs != [] {
      var n := |bs| - 1;
      AsBytes(bs[..n]);
      DivModUnique(ReadBigEndian(bs), 256, ReadBigEndian(bs[..n]), bs[n]);
      Pow2Byte();
      Pow2Add(8 * n, 8);
    }
  }
}
