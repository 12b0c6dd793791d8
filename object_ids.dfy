/**
 * Object identifiers. Every stored document is keyed by an ObjectId, written as a
 * string of 24 hexadecimal digits. `IsValidId` stands for `ObjectId.is_valid` applied
 * to a string, and `IdOf` is the store's supply of fresh identifiers: the n-th
 * identifier handed out is n written as 24 lower-case hexadecimal digits.
 */
module ObjectIds {
  type Id = string

  const IdLength: nat := 24

  predicate IsHexDigit(c: char) {
    '0' <= c <= '9' || 'a' <= c <= 'f' || 'A' <= c <= 'F'
  }

  predicate IsHexString(s: string) {
    forall i :: 0 <= i < |s| ==> IsHexDigit(s[i])
  }

  /** A syntactically valid ObjectId string; it depends on nothing but the string. */
  predicate IsValidId(s: string) {
    |s| == IdLength && IsHexString(s)
  }

  function Pow16(n: nat): (p: nat)
    ensures p >= 1
  {
    if n == 0 then 1 else 16 * Pow16(n - 1)
  }

  /** How many identifiers the supply can hand out before it is exhausted. */
  const IdSpace: nat := Pow16(IdLength)

  function HexValue(c: char): (v: nat)
    requires IsHexDigit(c)
    ensures v < 16
  {
    if '0' <= c <= '9' then c as int - '0' as int
    else if 'a' <= c <= 'f' then c as int - 'a' as int + 10
    else c as int - 'A' as int + 10
  }

  function HexDigit(v: nat): (c: char)
    requires v < 16
    ensures IsHexDigit(c) && HexValue(c) == v
  {
    if v < 10 then ('0' as int + v) as char else ('a' as int + v - 10) as char
  }

  /** The `width` lowest hexadecimal digits of `n`, most significant first. */
  function Encode(n: nat, width: nat): (s: string)
    ensures |s| == width && IsHexString(s)
  {
    if width == 0 then [] else Encode(n / 16, width - 1) + [HexDigit(n % 16)]
  }

  /** The number a string of hexadecimal digits denotes. */
  function Decode(s: string): (n: nat)
    requires IsHexString(s)
    ensures n < Pow16(|s|)
  {
    if s == [] then 0
    else
      var m := Decode(s[..|s| - 1]);
      assert m <= Pow16(|s| - 1) - 1;
      16 * m + HexValue(s[|s| - 1])
  }

  lemma {:induction false} DecodeEncode(n: nat, width: nat)
    requires n < Pow16(width)
    ensures Decode(Encode(n, width)) == n
  {
    if width > 0 {
      var s := Encode(n, width);
      assert s[..|s| - 1] == Encode(n / 16, width - 1);
      assert n / 16 < Pow16(width - 1);
      DecodeEncode(n / 16, width - 1);
    }
  }

  /** The number behind a valid identifier; identifiers with different numbers differ. */
  function IdNumber(id: Id): (n: nat)
    requires IsValidId(id)
    ensures n < IdSpace
  {
    Decode(id)
  }

  /** The n-th identifier of the supply. */
  function IdOf(n: nat): (id: Id)
    requires n < IdSpace
    ensures IsValidId(id) && IdNumber(id) == n
  {
    DecodeEncode(n, IdLength);
    Encode(n, IdLength)
  }

  /**
   * `str(ObjectId(s))`: `ObjectId` reads the 24 digits as twelve bytes, whatever the case
   * of their letters, and writes them back in lower case. It is the spelling under which
   * the store keeps an identifier and the one an `_id` filter matches.
   */
  function Canonical(s: Id): (c: Id)
    requires IsValidId(s)
    ensures IsValidId(c) && IdNumber(c) == IdNumber(s)
  {
    IdOf(IdNumber(s))
  }

  /** Spelt as the store spells identifiers. */
  predicate IsCanonical(s: Id) {
    IsValidId(s) && Canonical(s) == s
  }

  /** Two strings that `ObjectId` turns into the same identifier. */
  predicate SameId(s: Id, t: Id) {
    IsValidId(s) && IsValidId(t) && IdNumber(s) == IdNumber(t)
  }

  /** Two spellings have the same canonical form exactly when they name the same identifier. */
  lemma CanonicalSpelling(s: Id, t: Id)
    requires IsValidId(s) && IsValidId(t)
    ensures Canonical(s) == Canonical(t) <==> SameId(s, t)
    ensures IsCanonical(Canonical(s))
  {
    if Canonical(s) == Canonical(t) {
      assert IdNumber(s) == IdNumber(Canonical(s)) == IdNumber(Canonical(t)) == IdNumber(t);
    }
  }

  /** Every identifier the supply hands out is spelt canonically. */
  lemma IssuedIsCanonical(n: nat)
    requires n < IdSpace
    ensures IsCanonical(IdOf(n))
  {
  }

  /** Zero written with `width` digits. */
  lemma {:induction false} EncodeZero(width: nat)
    ensures Encode(0, width) == seq(width, _ => '0')
  {
    if width > 0 {
      EncodeZero(width - 1);
    }
  }

  /**
   * The tenth identifier of the supply ends in the letter `a`; with that letter in upper
   * case the string is another valid spelling of the same identifier.
   */
  lemma UpperCaseSpelling() returns (lower: Id, upper: Id)
    ensures lower == IdOf(10) && IsCanonical(lower)
    ensures upper == lower[..IdLength - 1] + ['A']
    ensures IsValidId(upper) && upper != lower && SameId(upper, lower)
  {
    lower := IdOf(10);
    EncodeZero(IdLength - 1);
    assert lower == Encode(0, IdLength - 1) + [HexDigit(10)];
    assert lower[IdLength - 1] == 'a';
    upper := lower[..IdLength - 1] + ['A'];
    assert upper[..|upper| - 1] == lower[..|lower| - 1];
    assert upper[IdLength - 1] != lower[IdLength - 1];
  }
}
