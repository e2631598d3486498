/**
 * Number and byte helpers of the listing layer (crates/retroc-file/src/listing/core.rs):
 * dotted-group numbers in base 8 or 16, and big-endian bytes of a grouped value.
 * `u128` arithmetic is modelled on `nat` with the wrap-around of `<<` written out.
 */
module ListingCore {
  import opened Wrappers
  import opened Strings
  import opened Arith

  /** Listing layout: numeric base, and group count and width for addresses and entries. */
  datatype ListingConfig = ListingConfig(
    base: Byte,
    addrGroups: nat,
    addrGroupWidth: nat,
    entryGroups: nat,
    entryGroupWidth: nat)

  /** A `u64`. */
  type Address = x: nat | x < U64

  /** One listing line: an address, the raw bytes, and the text after them. */
  datatype ListingEntry = ListingEntry(address: Address, bytes: seq<Byte>, text: string)

  const GroupCountMismatch := "group count mismatch"
  const InvalidGroupDigits := "invalid group digits"

  function NewHex(addrGroups: nat, addrGroupWidth: nat, entryGroups: nat, entryGroupWidth: nat): (c: ListingConfig)
    ensures c.base == 16 && GroupBits(c) == 4 * entryGroupWidth
    ensures (c.addrGroups, c.addrGroupWidth, c.entryGroups, c.entryGroupWidth)
         == (addrGroups, addrGroupWidth, entryGroups, entryGroupWidth)
  {
    ListingConfig(16, addrGroups, addrGroupWidth, entryGroups, entryGroupWidth)
  }

  function NewOctal(addrGroups: nat, addrGroupWidth: nat, entryGroups: nat, entryGroupWidth: nat): (c: ListingConfig)
    ensures c.base == 8 && GroupBits(c) == 3 * entryGroupWidth
    ensures (c.addrGroups, c.addrGroupWidth, c.entryGroups, c.entryGroupWidth)
         == (addrGroups, addrGroupWidth, entryGroups, entryGroupWidth)
  {
    ListingConfig(8, addrGroups, addrGroupWidth, entryGroups, entryGroupWidth)
  }

  /** Bits per digit: 4 for base 16, 3 for base 8, and 4 for any other base. */
  function BitsPerDigit(base: nat): nat {
    if base == 16 then 4 else if base == 8 then 3 else 4
  }

  /** The bits of `n` digits, and so the shift applied before a part of `n` digits. */
  function DigitBits(base: nat, n: nat): nat {
    BitsPerDigit(base) * n
  }

  /** `group_bits * groups`: the bits of `g` groups of `w` digits. */
  function TotalBits(base: nat, w: nat, g: nat): nat {
    DigitBits(base, w) * g
  }

  lemma TotalBitsStep(base: nat, w: nat, g: nat)
    requires g >= 1
    ensures TotalBits(base, w, g) == TotalBits(base, w, g - 1) + DigitBits(base, w)
  {
  }

  /** `group_bits`: the bits of one entry group. */
  function GroupBits(cfg: ListingConfig): (r: nat)
    ensures cfg.base == 16 ==> r == 4 * cfg.entryGroupWidth
    ensures cfg.base == 8 ==> r == 3 * cfg.entryGroupWidth
    ensures cfg.base != 8 && cfg.base != 16 ==> r == 4 * cfg.entryGroupWidth
  {
    DigitBits(cfg.base, cfg.entryGroupWidth)
  }

  /** For the two supported bases a group of `w` digits spans exactly `BitsPerDigit * w` bits. */
  lemma GroupSpan(base: nat, w: nat)
    requires base == 8 || base == 16
    ensures Pow(base, w) == Pow(2, DigitBits(base, w))
  {
    PowDigits(w);
  }

  // ---------------------------------------------------------------- digits

  /** The digit value `from_str_radix` gives a character, for radices up to 36. */
  function DigitValue(c: char): Option<nat> {
    if '0' <= c <= '9' then Some(c as int - '0' as int)
    else if 'a' <= c <= 'z' then Some(c as int - 'a' as int + 10)
    else if 'A' <= c <= 'Z' then Some(c as int - 'A' as int + 10)
    else None
  }

  predicate IsDigitOf(c: char, base: nat) {
    DigitValue(c).Some? && DigitValue(c).value < base
  }

  predicate AllDigits(p: string, base: nat) {
    forall i :: 0 <= i < |p| ==> IsDigitOf(p[i], base)
  }

  /** The value of a digit string, most significant digit first. */
  function DigitsValue(p: string, base: nat): (r: nat)
    requires AllDigits(p, base)
    ensures r < Pow(base, |p|)
  {
    if p == [] then 0
    else
      var q := p[..|p| - 1];
      var d := DigitValue(p[|p| - 1]).value;
      assert AllDigits(q, base) by { assert forall i :: 0 <= i < |q| ==> q[i] == p[i]; }
      var v := DigitsValue(q, base);
      assert d < base;
      MulAddBound(v, d, base, Pow(base, |q|));
      v * base + d
  }

  /** The digits `from_str_radix` reads: one leading `+` is dropped when digits follow it. */
  function Unsigned(p: string): (q: string)
    ensures |q| <= |p|
  {
    if |p| >= 2 && p[0] == '+' then p[1..] else p
  }

  /**
   * `u128::from_str_radix`: an optional `+`, then at least one digit of the radix, and a
   * value below 2^128; anything else (empty, a bad digit, `-`, overflow) is an error.
   */
  function FromStrRadix(p: string, base: nat): (r: Option<nat>)
    ensures r.Some? ==> r.value < U128 && p != []
  {
    var q := Unsigned(p);
    if q != [] && AllDigits(q, base) && DigitsValue(q, base) < U128 then Some(DigitsValue(q, base))
    else None
  }

  /** A plain digit string in range is read as its value. */
  lemma FromStrRadixDigits(p: string, base: nat)
    requires p != [] && AllDigits(p, base) && DigitsValue(p, base) < U128
    ensures FromStrRadix(p, base) == Some(DigitsValue(p, base))
  {
    assert IsDigitOf(p[0], base);
  }

  /** `value << bits` on `u128`, for `bits < 128`: the bits shifted past the top are lost. */
  function Shl128(value: nat, bits: nat): nat {
    (value * Pow(2, bits)) % U128
  }

  /**
   * The loop of `parse_grouped_number` never shifts by 128 bits or more (which panics):
   * every part read before the first one that fails to parse is shorter than that.
   */
  predicate FitsParts(parts: seq<string>, base: nat) {
    parts == [] ||
    (FromStrRadix(parts[0], base).Some? ==> DigitBits(base, |parts[0]|) < 128 && FitsParts(parts[1..], base))
  }

  /** `parse_grouped_number(s, base, expected)` does not panic: the count check fails first, or the shifts fit. */
  predicate ShiftsFit(s: string, base: nat, expected: Option<nat>) {
    var parts := Split(s, '.');
    (expected.Some? && |parts| != expected.value) || FitsParts(parts, base)
  }

  predicate AllParse(parts: seq<string>, base: nat) {
    forall i :: 0 <= i < |parts| ==> FromStrRadix(parts[i], base).Some?
  }

  predicate AllShiftsFit(parts: seq<string>, base: nat) {
    forall i :: 0 <= i < |parts| ==> DigitBits(base, |parts[i]|) < 128
  }

  lemma {:induction false} FitsAll(parts: seq<string>, base: nat)
    requires FitsParts(parts, base) && AllParse(parts, base)
    ensures AllShiftsFit(parts, base)
  {
    if parts != [] {
      assert FromStrRadix(parts[0], base).Some?;
      assert AllParse(parts[1..], base) by {
        assert forall i :: 0 <= i < |parts| - 1 ==> parts[1..][i] == parts[i + 1];
      }
      FitsAll(parts[1..], base);
      assert forall i :: 1 <= i < |parts| ==> parts[i] == parts[1..][i - 1];
    }
  }

  lemma {:induction false} AllFits(parts: seq<string>, base: nat)
    requires AllShiftsFit(parts, base)
    ensures FitsParts(parts, base)
  {
    if parts != [] {
      assert AllShiftsFit(parts[1..], base) by {
        assert forall i :: 0 <= i < |parts| - 1 ==> parts[1..][i] == parts[i + 1];
      }
      AllFits(parts[1..], base);
    }
  }

  /** A part's value fits in the bits it is shifted in by. */
  lemma PartBelowShift(p: string, base: nat)
    requires 2 <= base <= 16 && FromStrRadix(p, base).Some?
    ensures FromStrRadix(p, base).value < Pow(2, DigitBits(base, |p|))
  {
    var q := Unsigned(p);
    var d := BitsPerDigit(base);
    PowBaseMono(base, 16, |q|);
    PowDigits(|q|);
    assert Pow(base, |q|) <= Pow(2, d * |q|);
    PowMono(2, d * |q|, d * |p|);
  }

  /** A `u128` shifted by `bits < 128` leaves the low `bits` bits clear. */
  lemma ShlRoom(value: nat, bits: nat, low: nat)
    requires bits < 128 && low < Pow(2, bits)
    ensures Shl128(value, bits) + low < U128
  {
    Pow2At128();
    PowAdd(2, bits, 128 - bits);
    ModScaled(value, Pow(2, bits), Pow(2, 128 - bits));
  }

  /**
   * The fold of `parse_grouped_number`: `value = (value << bits) | part`.  The shifted
   * value has its low `bits` bits clear and the part is below `2^bits`, so the `|` is a sum.
   */
  function GroupedValue(parts: seq<string>, base: nat): (r: nat)
    requires 2 <= base <= 16 && AllParse(parts, base) && AllShiftsFit(parts, base)
    ensures r < U128
  {
    if parts == [] then 0
    else
      var init, last := parts[..|parts| - 1], parts[|parts| - 1];
      assert AllParse(init, base) && AllShiftsFit(init, base) by {
        assert forall i :: 0 <= i < |init| ==> init[i] == parts[i];
      }
      var v := GroupedValue(init, base);
      PartBelowShift(last, base);
      ShlRoom(v, DigitBits(base, |last|), FromStrRadix(last, base).value);
      Shl128(v, DigitBits(base, |last|)) + FromStrRadix(last, base).value
  }

  /**
   * `parse_grouped_number(s, base, expected)`: a group-count check when a count is
   * expected, then each part in turn, failing at the first that is not a number.
   */
  function ParseGrouped(s: string, base: nat, expected: Option<nat>): (r: Result<nat>)
    requires 2 <= base <= 16 && ShiftsFit(s, base, expected)
    ensures r.Ok? ==> r.value < U128
  {
    var parts := Split(s, '.');
    if expected.Some? && |parts| != expected.value then Err(GroupCountMismatch)
    else if !AllParse(parts, base) then Err(InvalidGroupDigits)
    else FitsAll(parts, base); Ok(GroupedValue(parts, base))
  }

  /** The error cases of `ParseGrouped`: a wrong part count, then any part that is not a number. */
  lemma ParseGroupedErrors(s: string, base: nat, expected: Option<nat>)
    requires 2 <= base <= 16 && ShiftsFit(s, base, expected)
    ensures expected.Some? && |Split(s, '.')| != expected.value ==>
      ParseGrouped(s, base, expected) == Err(GroupCountMismatch)
    ensures (expected.None? || |Split(s, '.')| == expected.value) ==>
      (ParseGrouped(s, base, expected) == Err(InvalidGroupDigits) <==>
        exists i :: 0 <= i < |Split(s, '.')| && FromStrRadix(Split(s, '.')[i], base).None?)
    ensures (exists i :: 0 <= i < |Split(s, '.')| && Split(s, '.')[i] == []) ==>
      ParseGrouped(s, base, expected).Err?
    ensures ParseGrouped(s, base, expected).Err? ==>
      ParseGrouped(s, base, expected).error in {GroupCountMismatch, InvalidGroupDigits}
  {
    var parts := Split(s, '.');
    if exists i :: 0 <= i < |parts| && parts[i] == [] {
      var i :| 0 <= i < |parts| && parts[i] == [];
      assert FromStrRadix(parts[i], base).None?;
    }
    if expected.None? || |parts| == expected.value {
      if AllParse(parts, base) {
        assert ParseGrouped(s, base, expected).Ok?;
      } else {
        var i :| 0 <= i < |parts| && !FromStrRadix(parts[i], base).Some?;
        assert FromStrRadix(Split(s, '.')[i], base).None?;
      }
    }
  }

  /** One step of the fold: a part that parses, appended to parts that did. */
  lemma GroupedValueSnoc(init: seq<string>, last: string, base: nat)
    requires 2 <= base <= 16 && AllParse(init, base) && AllShiftsFit(init, base)
    requires FromStrRadix(last, base).Some? && DigitBits(base, |last|) < 128
    ensures AllParse(init + [last], base) && AllShiftsFit(init + [last], base)
    ensures GroupedValue(init + [last], base)
         == Shl128(GroupedValue(init, base), DigitBits(base, |last|)) + FromStrRadix(last, base).value
  {
    var parts := init + [last];
    assert forall i :: 0 <= i < |init| ==> parts[i] == init[i];
    assert parts[..|parts| - 1] == init;
  }

  /** `parse_grouped_number`: the loop over the parts, returning at the first bad one. */
  method ParseGroupedNumber(s: string, base: nat, expected: Option<nat>) returns (r: Result<nat>)
    requires 2 <= base <= 16 && ShiftsFit(s, base, expected)
    ensures r == ParseGrouped(s, base, expected)
  {
    var parts := Split(s, '.');
    if expected.Some? && |parts| != expected.value {
      return Err(GroupCountMismatch);
    }
    var value := 0;
    var i := 0;
    assert parts[i..] == parts;
    while i < |parts|
      invariant i <= |parts|
      invariant FitsParts(parts[i..], base)
      invariant AllParse(parts[..i], base) && AllShiftsFit(parts[..i], base)
      invariant value == GroupedValue(parts[..i], base)
    {
      var part := parts[i];
      var partVal := FromStrRadix(part, base);
      if partVal.None? {
        return Err(InvalidGroupDigits);
      }
      var bits := DigitBits(base, |part|);
      assert parts[i..][0] == part && parts[i..][1..] == parts[i + 1..];
      assert parts[..i + 1] == parts[..i] + [part];
      GroupedValueSnoc(parts[..i], part, base);
      value := Shl128(value, bits) + partVal.value;
      i := i + 1;
    }
    assert parts[..i] == parts;
    return Ok(value);
  }

  // ---------------------------------------------------------------- formatting

  /** A lowercase digit character. */
  function DigitChar(d: nat): (c: char)
    requires d < 16
    ensures DigitValue(c) == Some(d)
    ensures !('A' <= c <= 'Z')
  {
    if d < 10 then ('0' as int + d) as char else ('a' as int + d - 10) as char
  }

  /** The digits of `x` without leading zeros (`0` is written `"0"`). */
  function NaturalDigits(x: nat, base: nat): (r: string)
    requires 2 <= base <= 16
    ensures r != []
    decreases x
  {
    if x < base then [DigitChar(x)] else NaturalDigits(x / base, base) + [DigitChar(x % base)]
  }

  function Zeros(n: nat): (r: string)
    ensures |r| == n && forall i :: 0 <= i < n ==> r[i] == '0'
  {
    seq(n, _ => '0')
  }

  /** Rust's `{:0w$x}` / `{:0w$o}`: the digits, padded on the left with zeros to at least `w`. */
  function ZeroPadded(x: nat, base: nat, w: nat): string
    requires 2 <= base <= 16
  {
    var d := NaturalDigits(x, base);
    if |d| >= w then d else Zeros(w - |d|) + d
  }

  /** Exactly `w` digits of `x`, most significant first. */
  function FixedDigits(x: nat, base: nat, w: nat): (r: string)
    requires 2 <= base <= 16
    ensures |r| == w
    ensures forall i :: 0 <= i < w ==> IsDigitOf(r[i], base) && !('A' <= r[i] <= 'Z')
    decreases w
  {
    if w == 0 then [] else FixedDigits(x / base, base, w - 1) + [DigitChar(x % base)]
  }

  lemma {:induction false} FixedDigitsZero(base: nat, w: nat)
    requires 2 <= base <= 16
    ensures FixedDigits(0, base, w) == Zeros(w)
  {
    if w > 0 {
      FixedDigitsZero(base, w - 1);
      assert DigitChar(0) == '0';
    }
  }

  /** A one-digit value, padded to `w >= 1` digits. */
  lemma PaddedOneDigit(x: nat, base: nat, w: nat)
    requires 2 <= base <= 16 && w >= 1 && x < base
    ensures ZeroPadded(x, base, w) == FixedDigits(x, base, w)
  {
    DivModUnique(x, base, 0, x);
    FixedDigitsZero(base, w - 1);
    assert NaturalDigits(x, base) == [DigitChar(x)];
    assert FixedDigits(x, base, w) == FixedDigits(0, base, w - 1) + [DigitChar(x)];
  }

  /** Padding `x` is padding its higher digits, then writing its lowest digit. */
  lemma PaddedStep(x: nat, base: nat, w: nat)
    requires 2 <= base <= 16 && w > 1 && x >= base
    requires |NaturalDigits(x / base, base)| <= w - 1
    ensures ZeroPadded(x, base, w) == ZeroPadded(x / base, base, w - 1) + [DigitChar(x % base)]
  {
    var d := NaturalDigits(x / base, base);
    var c := DigitChar(x % base);
    assert NaturalDigits(x, base) == d + [c];
    assert Zeros(w - |d| - 1) + d + [c] == Zeros(w - 1 - |d|) + (d + [c]);
  }

  /** For a value that fits in `w >= 1` digits, zero padding writes exactly `w` digits. */
  lemma {:induction false} PaddedIsFixed(x: nat, base: nat, w: nat)
    requires 2 <= base <= 16 && w >= 1 && x < Pow(base, w)
    ensures ZeroPadded(x, base, w) == FixedDigits(x, base, w)
    decreases w
  {
    if x < base {
      PaddedOneDigit(x, base, w);
    } else {
      assert w > 1;
      DivBelow(x, base, Pow(base, w - 1));
      PaddedIsFixed(x / base, base, w - 1);
      PaddedStep(x, base, w);
    }
  }

  /** Reading back exactly `w` digits of `x` gives `x` reduced to `w` digits. */
  lemma {:induction false} FixedDigitsValue(x: nat, base: nat, w: nat)
    requires 2 <= base <= 16
    ensures AllDigits(FixedDigits(x, base, w), base)
    ensures DigitsValue(FixedDigits(x, base, w), base) == x % Pow(base, w)
    decreases w
  {
    if w > 0 {
      FixedDigitsValue(x / base, base, w - 1);
      var p := FixedDigits(x, base, w);
      assert p[..|p| - 1] == FixedDigits(x / base, base, w - 1);
      ModSplit(x, base, Pow(base, w - 1));
    }
  }

  function Reversed<T>(s: seq<T>): (r: seq<T>)
    ensures |r| == |s| && forall i :: 0 <= i < |s| ==> r[i] == s[|s| - 1 - i]
  {
    if s == [] then [] else Reversed(s[1..]) + [s[0]]
  }

  /** `v` with its `i` lowest groups of weight `p` shifted out. */
  function Drop(v: nat, p: nat, i: nat): nat
    requires p > 0
    decreases i
  {
    if i == 0 then v else Drop(v / p, p, i - 1)
  }

  lemma {:induction false} DropSnoc(v: nat, p: nat, i: nat)
    requires p > 0
    ensures Drop(v, p, i + 1) == Drop(v, p, i) / p
    decreases i
  {
    if i > 0 {
      DropSnoc(v / p, p, i - 1);
    }
  }

  /** Shifting out `i` groups is one shift right by `i` group widths. */
  lemma {:induction false} DropIsDiv(v: nat, p: nat, i: nat)
    requires p > 0
    ensures Drop(v, p, i) == v / Pow(p, i)
    decreases i
  {
    if i > 0 {
      DropIsDiv(v / p, p, i - 1);
      DivDiv(v, p, Pow(p, i - 1));
    }
  }

  /** The `g` lowest groups of weight `p` of `v`, least significant first: `(v >> i*bits) & mask`. */
  function GroupValues(v: nat, p: nat, g: nat): (r: seq<nat>)
    requires p > 0
    ensures |r| == g && forall i :: 0 <= i < g ==> r[i] < p
  {
    seq(g, i requires 0 <= i < g => Drop(v, p, i) % p)
  }

  lemma GroupValuesSnoc(v: nat, p: nat, i: nat)
    requires p > 0
    ensures GroupValues(v, p, i + 1) == GroupValues(v, p, i) + [Drop(v, p, i) % p]
  {
  }

  /** Every group value written with `{:0w$}`. */
  function Padded(vals: seq<nat>, base: nat, w: nat): (r: seq<string>)
    requires 2 <= base <= 16
    ensures |r| == |vals|
  {
    seq(|vals|, i requires 0 <= i < |vals| => ZeroPadded(vals[i], base, w))
  }

  lemma PaddedSnoc(vals: seq<nat>, x: nat, base: nat, w: nat)
    requires 2 <= base <= 16
    ensures Padded(vals + [x], base, w) == Padded(vals, base, w) + [ZeroPadded(x, base, w)]
  {
  }

  lemma PaddedReversed(vals: seq<nat>, base: nat, w: nat)
    requires 2 <= base <= 16
    ensures Reversed(Padded(vals, base, w)) == Padded(Reversed(vals), base, w)
  {
  }

  /** `format_grouped_number`: the padded groups, most significant first, joined by `.`. */
  function FormatGrouped(v: nat, cfg: ListingConfig, g: nat, w: nat): string
    requires cfg.base == 8 || cfg.base == 16
  {
    Join(Reversed(Padded(GroupValues(v, Pow(cfg.base, w), g), cfg.base, w)), '.')
  }

  /** `format_grouped_number`: collect groups from the least significant up, then reverse and join. */
  method FormatGroupedNumber(value: nat, cfg: ListingConfig, groups: nat, groupWidth: nat) returns (s: string)
    requires cfg.base == 8 || cfg.base == 16
    requires value < U128
    requires groups == 0 || Pow(cfg.base, groupWidth) < U128
    ensures s == FormatGrouped(value, cfg, groups, groupWidth)
  {
    var base := cfg.base;
    ghost var P := Pow(base, groupWidth);
    var parts: seq<string> := [];
    var v := value;
    for i := 0 to groups
      invariant v == Drop(value, P, i)
      invariant parts == Padded(GroupValues(value, P, i), base, groupWidth)
    {
      var mask := Pow(base, groupWidth) - 1;
      var part := v % (mask + 1);  // `value & mask`: base^w is a power of two
      var str := ZeroPadded(part, base, groupWidth);
      GroupValuesSnoc(value, P, i);
      PaddedSnoc(GroupValues(value, P, i), part, base, groupWidth);
      parts := parts + [str];
      GroupSpan(base, groupWidth);
      DropSnoc(value, P, i);
      v := v / Pow(2, DigitBits(base, groupWidth));  // `value >>= d * w`
    }
    parts := Reversed(parts);
    s := Join(parts, '.');
  }

  /** Group `i` from the right of `v` is `(v >> i*d*w) mod base^w`. */
  lemma GroupValueAt(v: nat, base: nat, g: nat, w: nat, i: nat)
    requires (base == 8 || base == 16) && i < g
    ensures GroupValues(v, Pow(base, w), g)[i] == (v / Pow(2, TotalBits(base, w, i))) % Pow(base, w)
  {
    DropIsDiv(v, Pow(base, w), i);
    GroupWeight(base, w, i);
  }

  /** `i` groups of `w` digits weigh `2^(d*w*i)`. */
  lemma GroupWeight(base: nat, w: nat, i: nat)
    requires base == 8 || base == 16
    ensures Pow(Pow(base, w), i) == Pow(2, TotalBits(base, w, i))
  {
    PowMul(base, w, i);
    GroupSpan(base, w * i);
    MulAssoc(BitsPerDigit(base), w, i);
  }

  /**
   * What `format_grouped_number` writes, for base 8 or 16 and `g, w >= 1`: exactly `g`
   * dot-separated parts of exactly `w` lowercase digits each, most significant group
   * first, the `i`-th from the right being group `i` of `v` (which `GroupValueAt` shows
   * is `(v >> i*d*w) mod base^w`).
   */
  lemma FormatGroupedParts(v: nat, cfg: ListingConfig, g: nat, w: nat)
    requires cfg.base == 8 || cfg.base == 16
    requires g >= 1 && w >= 1
    ensures |Split(FormatGrouped(v, cfg, g, w), '.')| == g
    ensures GroupDigits(Split(FormatGrouped(v, cfg, g, w), '.'), GroupValues(v, Pow(cfg.base, w), g), cfg.base, w)
  {
    var base := cfg.base;
    var vals := GroupValues(v, Pow(base, w), g);
    FormatSplit(v, cfg, g, w);
    PaddedGroupsShape(vals, base, w);
  }

  /**
   * `parts` are the groups `vals` written out, most significant first: each exactly `w`
   * lowercase digits of the base, the `i`-th from the right being `vals[i]`.
   */
  predicate GroupDigits(parts: seq<string>, vals: seq<nat>, base: nat, w: nat)
    requires 2 <= base <= 16
  {
    && |parts| == |vals|
    && (forall j :: 0 <= j < |vals| ==> |parts[j]| == w && AllDigits(parts[j], base))
    && (forall j :: 0 <= j < |vals| ==> forall k :: 0 <= k < w ==> !('A' <= parts[j][k] <= 'Z'))
    && (forall i :: 0 <= i < |vals| ==> parts[|vals| - 1 - i] == FixedDigits(vals[i], base, w))
  }

  /** Padded groups below `base^w`, most significant first, are each exactly `w` lowercase digits. */
  lemma PaddedGroupsShape(vals: seq<nat>, base: nat, w: nat)
    requires 2 <= base <= 16 && w >= 1
    requires forall i :: 0 <= i < |vals| ==> vals[i] < Pow(base, w)
    ensures GroupDigits(Reversed(Padded(vals, base, w)), vals, base, w)
  {
    var parts := Reversed(Padded(vals, base, w));
    ReversedPaddedFixed(vals, base, w);
    FixedShapes(parts, vals, base, w);
  }

  lemma ReversedPaddedFixed(vals: seq<nat>, base: nat, w: nat)
    requires 2 <= base <= 16 && w >= 1
    requires forall i :: 0 <= i < |vals| ==> vals[i] < Pow(base, w)
    ensures forall j :: 0 <= j < |vals| ==>
      Reversed(Padded(vals, base, w))[j] == FixedDigits(vals[|vals| - 1 - j], base, w)
  {
    var g := |vals|;
    forall j | 0 <= j < g
      ensures Reversed(Padded(vals, base, w))[j] == FixedDigits(vals[g - 1 - j], base, w)
    {
      PaddedIsFixed(vals[g - 1 - j], base, w);
    }
  }

  /** Parts that are the fixed-width digits of `vals` in reverse have the shape of a group. */
  lemma FixedShapes(parts: seq<string>, vals: seq<nat>, base: nat, w: nat)
    requires 2 <= base <= 16 && |parts| == |vals|
    requires forall j :: 0 <= j < |vals| ==> parts[j] == FixedDigits(vals[|vals| - 1 - j], base, w)
    ensures forall j :: 0 <= j < |vals| ==> |parts[j]| == w && AllDigits(parts[j], base)
    ensures forall j :: 0 <= j < |vals| ==> forall k :: 0 <= k < w ==> !('A' <= parts[j][k] <= 'Z')
    ensures forall i :: 0 <= i < |vals| ==> parts[|vals| - 1 - i] == FixedDigits(vals[i], base, w)
  {
    var g := |vals|;
    forall i | 0 <= i < g ensures parts[g - 1 - i] == FixedDigits(vals[i], base, w) {
      assert g - 1 - (g - 1 - i) == i;
    }
  }

  /** The parts of what `format_grouped_number` writes are the padded groups, most significant first. */
  lemma FormatSplit(v: nat, cfg: ListingConfig, g: nat, w: nat)
    requires cfg.base == 8 || cfg.base == 16
    requires g >= 1 && w >= 1
    ensures Split(FormatGrouped(v, cfg, g, w), '.') == Reversed(Padded(GroupValues(v, Pow(cfg.base, w), g), cfg.base, w))
  {
    var base := cfg.base;
    var vals := GroupValues(v, Pow(base, w), g);
    PaddedGroupsShape(vals, base, w);
    JoinDigits(Reversed(Padded(vals, base, w)), base);
  }

  /** Digit strings joined by `.` split back into themselves: digits never include the separator. */
  lemma JoinDigits(parts: seq<string>, base: nat)
    requires |parts| >= 1 && forall j :: 0 <= j < |parts| ==> AllDigits(parts[j], base)
    ensures Split(Join(parts, '.'), '.') == parts
  {
    SplitJoin(parts, '.');
  }

  /** Digits of `base` and group separators only. */
  predicate DotDigits(s: string, base: nat) {
    forall i :: 0 <= i < |s| ==> s[i] == '.' || IsDigitOf(s[i], base)
  }

  /** Digits and dots are neither whitespace nor a line feed. */
  lemma DotDigitsText(s: string, base: nat)
    requires DotDigits(s, base)
    ensures NoWs(s) && '\n' !in s
  {
    forall i | 0 <= i < |s| ensures !IsWs(s[i]) && s[i] != '\n' {
      assert s[i] == '.' || DigitValue(s[i]).Some?;
    }
  }

  lemma {:induction false} JoinDotDigits(parts: seq<string>, base: nat)
    requires forall j :: 0 <= j < |parts| ==> AllDigits(parts[j], base)
    ensures DotDigits(Join(parts, '.'), base)
  {
    if |parts| > 1 {
      JoinDotDigits(parts[1..], base);
      assert AllDigits(parts[0], base);
      var s := Join(parts, '.');
      var rest := Join(parts[1..], '.');
      assert s == parts[0] + ['.'] + rest;
      forall i | 0 <= i < |s| ensures s[i] == '.' || IsDigitOf(s[i], base) {
        if i > |parts[0]| {
          assert s[i] == rest[i - |parts[0]| - 1];
        }
      }
    } else if |parts| == 1 {
      assert AllDigits(parts[0], base);
    }
  }

  /** A join ends with its last part's last character, and starts with its first part's first when that part is not empty. */
  lemma {:induction false} JoinEnds(parts: seq<string>, c: char)
    requires |parts| >= 1 && parts[|parts| - 1] != []
    ensures var s := Join(parts, c);
      && s != [] && s[|s| - 1] == parts[|parts| - 1][|parts[|parts| - 1]| - 1]
      && (parts[0] != [] ==> s[0] == parts[0][0])
  {
    if |parts| > 1 {
      JoinEnds(parts[1..], c);
      assert Join(parts, c) == parts[0] + [c] + Join(parts[1..], c);
    }
  }

  /**
   * The characters of what `format_grouped_number` writes (`g, w >= 1`): digits of the
   * base and dots only, starting and ending with a digit, with a dot exactly when `g >= 2`.
   */
  lemma FormatGroupedText(v: nat, cfg: ListingConfig, g: nat, w: nat)
    requires cfg.base == 8 || cfg.base == 16
    requires g >= 1 && w >= 1
    ensures var s := FormatGrouped(v, cfg, g, w);
      && s != [] && DotDigits(s, cfg.base)
      && IsDigitOf(s[0], cfg.base) && IsDigitOf(s[|s| - 1], cfg.base)
      && ('.' in s <==> g >= 2)
  {
    var base := cfg.base;
    var vals := GroupValues(v, Pow(base, w), g);
    var parts := Reversed(Padded(vals, base, w));
    var s := FormatGrouped(v, cfg, g, w);
    PaddedGroupsShape(vals, base, w);
    JoinDotDigits(parts, base);
    JoinEnds(parts, '.');
    assert IsDigitOf(parts[0][0], base);
    assert IsDigitOf(parts[g - 1][w - 1], base);
    FormatSplit(v, cfg, g, w);
    if g >= 2 {
      if '.' !in s {
        SplitAfter(s, [], '.');
      }
    } else {
      assert s == parts[0];
      assert forall i :: 0 <= i < |s| ==> IsDigitOf(s[i], base);
    }
  }

  /** The value of base-`p` digits, most significant first. */
  function Horner(xs: seq<nat>, p: nat): nat {
    if xs == [] then 0 else Horner(xs[..|xs| - 1], p) * p + xs[|xs| - 1]
  }

  lemma {:induction false} HornerBound(xs: seq<nat>, p: nat)
    requires p > 0 && forall i :: 0 <= i < |xs| ==> xs[i] < p
    ensures Horner(xs, p) < Pow(p, |xs|)
  {
    if xs != [] {
      var init := xs[..|xs| - 1];
      assert forall i :: 0 <= i < |init| ==> init[i] == xs[i];
      HornerBound(init, p);
      MulAddBound(Horner(init, p), xs[|xs| - 1], p, Pow(p, |init|));
    }
  }

  /** Reading the groups back, most significant first, rebuilds the value modulo `p^g`. */
  lemma {:induction false} HornerGroups(v: nat, p: nat, g: nat)
    requires p > 0
    ensures Horner(Reversed(GroupValues(v, p, g)), p) == v % Pow(p, g)
    decreases g
  {
    if g > 0 {
      var xs := Reversed(GroupValues(v, p, g));
      var hs := Reversed(GroupValues(v / p, p, g - 1));
      assert xs[..g - 1] == hs by {
        forall k | 0 <= k < g - 1 ensures xs[k] == hs[k] {
          assert Drop(v, p, g - 1 - k) == Drop(v / p, p, g - 2 - k);
        }
      }
      assert xs[g - 1] == v % p;
      HornerGroups(v / p, p, g - 1);
      ModSplit(v, p, Pow(p, g - 1));
    }
  }

  /** A part of `w` digits, `d*w < 128`, is accepted by `from_str_radix`. */
  lemma FixedParses(p: string, base: nat, w: nat)
    requires (base == 8 || base == 16) && |p| == w && w >= 1 && AllDigits(p, base)
    requires DigitBits(base, w) < 128
    ensures FromStrRadix(p, base) == Some(DigitsValue(p, base))
  {
    GroupSpan(base, w);
    PowMono(2, DigitBits(base, w), 128);
    Pow2At128();
    FromStrRadixDigits(p, base);
  }

  /** A group value below `base^w`, written with `{:0w$}`, reads back as that value. */
  lemma PaddedParses(x: nat, base: nat, w: nat)
    requires (base == 8 || base == 16) && w >= 1 && DigitBits(base, w) < 128
    requires x < Pow(base, w)
    ensures FromStrRadix(ZeroPadded(x, base, w), base) == Some(x)
    ensures |ZeroPadded(x, base, w)| == w
  {
    PaddedIsFixed(x, base, w);
    var f := FixedDigits(x, base, w);
    FixedParses(f, base, w);
    FixedDigitsValue(x, base, w);
    ModBelow(x, Pow(base, w));
    assert DigitsValue(f, base) == x;
  }

  lemma PaddedAllParse(hs: seq<nat>, base: nat, w: nat)
    requires (base == 8 || base == 16) && w >= 1 && DigitBits(base, w) < 128
    requires forall i :: 0 <= i < |hs| ==> hs[i] < Pow(base, w)
    ensures forall i :: 0 <= i < |hs| ==>
      FromStrRadix(Padded(hs, base, w)[i], base) == Some(hs[i]) &&
      |Padded(hs, base, w)[i]| == w
  {
    forall i | 0 <= i < |hs|
      ensures FromStrRadix(Padded(hs, base, w)[i], base) == Some(hs[i])
      ensures |Padded(hs, base, w)[i]| == w
    {
      PaddedParses(hs[i], base, w);
    }
  }

  /** `n` groups of `d*w` bits fit in 128 bits: `(base^w)^n <= 2^128`. */
  lemma GroupsFit(base: nat, w: nat, n: nat)
    requires (base == 8 || base == 16) && TotalBits(base, w, n) <= 128
    ensures Pow(Pow(base, w), n) <= U128
  {
    GroupWeight(base, w, n);
    PowMono(2, TotalBits(base, w, n), 128);
    Pow2At128();
  }

  /** Below `p^(n-1)`, with `n` groups of `d*w` bits fitting in 128, a shift by `d*w` does not wrap. */
  lemma ShlNoWrap(x: nat, base: nat, w: nat, n: nat)
    requires (base == 8 || base == 16) && n >= 1
    requires TotalBits(base, w, n) <= 128
    requires x < Pow(Pow(base, w), n - 1)
    ensures Shl128(x, DigitBits(base, w)) == x * Pow(base, w)
  {
    var P := Pow(base, w);
    var Q := Pow(P, n - 1);
    MulAddBound(x, 0, P, Q);
    assert Pow(P, n) == P * Q;
    GroupsFit(base, w, n);
    GroupSpan(base, w);
    assert Pow(2, DigitBits(base, w)) == P;
    ModBelow(x * P, U128);
  }

  /**
   * Parsing groups written as exactly `w` digits each: every part is accepted and the
   * shifts neither panic nor wrap, so the fold is the plain base-`base^w` value.
   */
  lemma {:induction false} GroupedHorner(hs: seq<nat>, base: nat, w: nat)
    requires (base == 8 || base == 16) && w >= 1
    requires TotalBits(base, w, |hs|) <= 128 && DigitBits(base, w) < 128
    requires forall i :: 0 <= i < |hs| ==> hs[i] < Pow(base, w)
    ensures var parts := Padded(hs, base, w);
      && AllParse(parts, base) && AllShiftsFit(parts, base)
      && GroupedValue(parts, base) == Horner(hs, Pow(base, w))
    decreases |hs|
  {
    var P := Pow(base, w);
    var parts := Padded(hs, base, w);
    assert AllParse(parts, base) && AllShiftsFit(parts, base) by {
      PaddedAllParse(hs, base, w);
    }
    if hs != [] {
      var n := |hs|;
      var init, last := hs[..n - 1], hs[n - 1];
      var x := Horner(init, P);
      assert hs == init + [last];
      assert GroupedValue(parts, base) == Shl128(x, DigitBits(base, w)) + last by {
        PaddedSnoc(init, last, base, w);
        TotalBitsStep(base, w, n);
        GroupedHorner(init, base, w);
        PaddedParses(last, base, w);
        GroupedValueSnoc(Padded(init, base, w), ZeroPadded(last, base, w), base);
      }
      assert x < Pow(P, n - 1) by {
        HornerBound(init, P);
      }
      ShlNoWrap(x, base, w, n);
    }
  }

  /**
   * Round trip: parsing what `format_grouped_number` wrote, expecting `g` groups, gives
   * back the value reduced to its low `d*w*g` bits.
   */
  lemma FormatParseRoundTrip(v: nat, cfg: ListingConfig, g: nat, w: nat)
    requires cfg.base == 8 || cfg.base == 16
    requires g >= 1 && w >= 1
    requires TotalBits(cfg.base, w, g) <= 128 && DigitBits(cfg.base, w) < 128
    ensures var s := FormatGrouped(v, cfg, g, w);
      ShiftsFit(s, cfg.base, Some(g)) &&
      ParseGrouped(s, cfg.base, Some(g)) == Ok(v % Pow(2, TotalBits(cfg.base, w, g)))
  {
    var base := cfg.base;
    var d := BitsPerDigit(base);
    var P := Pow(base, w);
    var vals := GroupValues(v, P, g);
    FormatSplit(v, cfg, g, w);
    var parts := Split(FormatGrouped(v, cfg, g, w), '.');
    PaddedReversed(vals, base, w);
    assert parts == Padded(Reversed(vals), base, w);
    GroupedHorner(Reversed(vals), base, w);
    HornerGroups(v, P, g);
    GroupWeight(base, w, g);
    AllFits(parts, base);
  }

  // ---------------------------------------------------------------- bytes

  /** `n` bytes of `v`, most significant first. */
  function BytesBE(v: nat, n: nat): (r: seq<Byte>)
    ensures |r| == n
    decreases n
  {
    if n == 0 then [] else BytesBE(v / 256, n - 1) + [v % 256]
  }

  /** `(total_bits + 7) / 8` for the grouped value. */
  function TotalBytes(base: nat, groupWidth: nat, groups: nat): nat {
    (TotalBits(base, groupWidth, groups) + 7) / 8
  }

  /** `grouped_value_to_bytes`: no bytes for a zero-bit value, else its bytes, big-endian. */
  function ToBytes(value: nat, base: nat, groupWidth: nat, groups: nat): seq<Byte> {
    if TotalBits(base, groupWidth, groups) == 0 then []
    else BytesBE(value, TotalBytes(base, groupWidth, groups))
  }

  /** Byte `k` of `n` big-endian bytes of `v` is `(v >> 8*(n-1-k)) & 0xff`. */
  lemma {:induction false} BytesBEAt(v: nat, n: nat, k: nat)
    requires k < n
    ensures BytesBE(v, n)[k] == (v / Pow(2, 8 * (n - 1 - k))) % 256
    decreases n
  {
    if k < n - 1 {
      BytesBEAt(v / 256, n - 1, k);
      DivDiv(v, 256, Pow(2, 8 * (n - 2 - k)));
      assert Pow(2, 8) == 256;
      PowAdd(2, 8, 8 * (n - 2 - k));
      assert 8 + 8 * (n - 2 - k) == 8 * (n - 1 - k);
    }
  }

  /** `grouped_value_to_bytes`: shift each byte down, highest first, and push it. */
  method GroupedValueToBytes(value: nat, base: nat, groupWidth: nat, groups: nat) returns (out: seq<Byte>)
    requires value < U128
    requires TotalBits(base, groupWidth, groups) == 0 || TotalBytes(base, groupWidth, groups) <= 16
    ensures out == ToBytes(value, base, groupWidth, groups)
    ensures |out| == if TotalBits(base, groupWidth, groups) == 0 then 0 else TotalBytes(base, groupWidth, groups)
    ensures forall k :: 0 <= k < |out| ==> out[k] == (value / Pow(2, 8 * (|out| - 1 - k))) % 256
  {
    out := [];
    var groupBits := DigitBits(base, groupWidth);
    var totalBits := groupBits * groups;
    if totalBits == 0 {
      return;
    }
    var totalBytes: nat := (totalBits + 7) / 8;
    var i: nat := totalBytes;
    while i > 0
      invariant i <= totalBytes && |out| == totalBytes - i
      invariant forall k :: 0 <= k < |out| ==> out[k] == (value / Pow(2, 8 * (totalBytes - 1 - k))) % 256
    {
      i := i - 1;
      var shift := i * 8;
      var b := (value / Pow(2, shift)) % 256;
      out := out + [b];
    }
    forall k | 0 <= k < totalBytes ensures out[k] == BytesBE(value, totalBytes)[k] {
      BytesBEAt(value, totalBytes, k);
    }
  }

  /** The printers' fold `val = (val << 8) | b` over bytes, on `u128`. */
  function BytesValue(bytes: seq<Byte>): (r: nat)
    ensures r < U128
  {
    if bytes == [] then 0
    else
      var v := BytesValue(bytes[..|bytes| - 1]);
      assert Pow(2, 8) == 256;
      ShlRoom(v, 8, bytes[|bytes| - 1]);
      Shl128(v, 8) + bytes[|bytes| - 1]
  }

  /** `n` bytes fold to a value below `2^(8n)` (`n <= 16`, so the shifts never wrap). */
  lemma {:induction false} BytesValueBound(bytes: seq<Byte>)
    requires |bytes| <= 16
    ensures BytesValue(bytes) < Pow(2, 8 * |bytes|)
    ensures bytes != [] ==>
      BytesValue(bytes) == BytesValue(bytes[..|bytes| - 1]) * 256 + bytes[|bytes| - 1]
  {
    if bytes != [] {
      var n := |bytes|;
      var init := bytes[..n - 1];
      var v := BytesValue(init);
      var q := Pow(2, 8 * (n - 1));
      BytesValueBound(init);
      assert Pow(2, 8) == 256;
      assert Pow(2, 8 * n) == 256 * q by {
        PowAdd(2, 8, 8 * (n - 1));
      }
      assert v * 256 + 255 < 256 * q by {
        MulAddBound(v, 255, 256, q);
      }
      assert 256 * q <= U128 by {
        PowMono(2, 8 * n, 128);
        Pow2At128();
      }
      ModBelow(v * 256, U128);
    }
  }

  /** Writing back `n` bytes of their fold gives the bytes again (`n <= 16`). */
  lemma {:induction false} BytesOfBytesValue(bytes: seq<Byte>)
    requires |bytes| <= 16
    ensures BytesBE(BytesValue(bytes), |bytes|) == bytes
  {
    if bytes != [] {
      var n := |bytes|;
      var init := bytes[..n - 1];
      BytesValueBound(bytes);
      BytesOfBytesValue(init);
      BytesBESnoc(BytesValue(init), bytes[n - 1], n - 1);
      assert bytes == init + [bytes[n - 1]];
    }
  }

  /** Appending a low byte to a value appends it to the value's big-endian bytes. */
  lemma BytesBESnoc(v: nat, b: Byte, n: nat)
    ensures BytesBE(v * 256 + b, n + 1) == BytesBE(v, n) + [b]
  {
    DivModUnique(v * 256 + b, 256, v, b);
  }

  /** For bytes produced from a value, the fold recovers the value modulo `256^n` (`n <= 16`). */
  lemma {:induction false} BytesValueOfBE(v: nat, n: nat)
    requires n <= 16
    ensures BytesValue(BytesBE(v, n)) == v % Pow(2, 8 * n)
    decreases n
  {
    if n > 0 {
      var bs := BytesBE(v, n);
      var q := Pow(2, 8 * (n - 1));
      var x := (v / 256) % q;
      assert BytesValue(bs) == Shl128(x, 8) + v % 256 by {
        assert bs[..n - 1] == BytesBE(v / 256, n - 1);
        BytesValueOfBE(v / 256, n - 1);
      }
      assert Pow(2, 8) == 256;
      assert Pow(2, 8 * n) == 256 * q by {
        PowAdd(2, 8, 8 * (n - 1));
      }
      assert x * 256 < U128 by {
        MulAddBound(x, 0, 256, q);
        PowMono(2, 8 * n, 128);
        Pow2At128();
      }
      ModBelow(x * 256, U128);
      ModSplit(v, 256, q);
    }
  }
}
