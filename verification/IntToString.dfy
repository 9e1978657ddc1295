/** kint_to_string of kernel/libk/kstring.c: integers as text in any base, and back. */
module IntToString {
  import opened Collections

  const INT64_MIN: int := -0x8000_0000_0000_0000
  const UINT64: int := 0x1_0000_0000_0000_0000

  type Int64 = x: int | -0x8000_0000_0000_0000 <= x < 0x8000_0000_0000_0000

  // ---- digits and their characters ----

  function DigitChar(d: nat, lowercase: bool): char
    requires d < 36
  {
    if d < 10 then (d + 48) as char else if !lowercase then (d + 55) as char else (d + 87) as char
  }

  /** The value of a digit in either letter case. */
  function DigitValue(c: char): (d: Option<nat>)
    ensures d.Some? ==> d.value < 36
  {
    if '0' <= c <= '9' then Some(c as nat - 48)
    else if 'A' <= c <= 'Z' then Some(c as nat - 55)
    else if 'a' <= c <= 'z' then Some(c as nat - 87)
    else None
  }

  lemma DigitRoundTrip(d: nat, lowercase: bool)
    requires d < 36
    ensures DigitValue(DigitChar(d, lowercase)) == Some(d)
    ensures DigitChar(d, lowercase) != '-' && DigitChar(d, lowercase) != '\0'
    ensures DigitChar(d, lowercase) == '0' <==> d == 0
  {
  }

  /** Quotient and remainder; the quotient is smaller, and not zero while there is another digit. */
  lemma Division(n: nat, base: nat)
    requires 2 <= base
    ensures n / base * base + n % base == n && n % base < base
    ensures n >= base ==> 0 < n / base < n
    ensures n < base ==> n / base == 0 && n % base == n
  {
    var q := n / base;
    assert n == q * base + n % base;
    if q > 0 { assert q * base >= q * 2; }
  }

  /** The digits of n, the least significant first; there is at least one. */
  function Digits(n: nat, base: nat): (ds: seq<nat>)
    requires 2 <= base
    ensures |ds| > 0 && forall i :: 0 <= i < |ds| ==> ds[i] < base
  {
    if n < base then [n]
    else
      Division(n, base);
      [n % base] + Digits(n / base, base)
  }

  function Chars(ds: seq<nat>, lowercase: bool): (cs: string)
    requires forall i :: 0 <= i < |ds| ==> ds[i] < 36
    ensures |cs| == |ds| && forall i :: 0 <= i < |cs| ==> cs[i] == DigitChar(ds[i], lowercase)
  {
    seq(|ds|, i requires 0 <= i < |ds| => DigitChar(ds[i], lowercase))
  }

  function Reverse<T>(s: seq<T>): (r: seq<T>)
    ensures |r| == |s| && forall i :: 0 <= i < |s| ==> r[i] == s[|s| - 1 - i]
  {
    seq(|s|, i requires 0 <= i < |s| => s[|s| - 1 - i])
  }

  /** A number in digits, the most significant first. */
  function Numeral(n: nat, base: nat, lowercase: bool): (s: string)
    requires 2 <= base <= 36
    ensures s != ""
  {
    if n < base then [DigitChar(n, lowercase)]
    else
      Division(n, base);
      Numeral(n / base, base, lowercase) + [DigitChar(n % base, lowercase)]
  }

  lemma MirrorCons(d: nat, ds: seq<nat>, lowercase: bool)
    requires d < 36 && forall i :: 0 <= i < |ds| ==> ds[i] < 36
    ensures Reverse(Chars([d] + ds, lowercase)) == Reverse(Chars(ds, lowercase)) + [DigitChar(d, lowercase)]
  {
    assert Chars([d] + ds, lowercase) == [DigitChar(d, lowercase)] + Chars(ds, lowercase);
  }

  lemma {:induction false} NumeralIsDigits(n: nat, base: nat, lowercase: bool)
    requires 2 <= base <= 36
    ensures Numeral(n, base, lowercase) == Reverse(Chars(Digits(n, base), lowercase))
    decreases n
  {
    if n >= base {
      Division(n, base);
      NumeralIsDigits(n / base, base, lowercase);
      MirrorCons(n % base, Digits(n / base, base), lowercase);
    }
  }

  function Abs(x: int): nat {
    if x < 0 then -x else x
  }

  function Sign(x: int): string {
    if x < 0 then "-" else ""
  }

  /** The text of a number: a sign if it is negative, then its digits, the most significant first. */
  function Text(x: int, base: nat, lowercase: bool): string
    requires 2 <= base <= 36
  {
    Sign(x) + Numeral(Abs(x), base, lowercase)
  }

  // ---- reading text back ----

  /** The number that digits denote, the most significant first, after those that denote before. */
  function Value(s: string, base: nat, before: nat): Option<nat> {
    if s == [] then Some(before)
    else
      var d := DigitValue(s[0]);
      if d.None? || d.value >= base then None else Value(s[1..], base, before * base + d.value)
  }

  function Parse(s: string, base: nat): Option<int> {
    var negative := s != [] && s[0] == '-';
    var digits := if negative then s[1..] else s;
    if digits == [] then None
    else
      var v := Value(digits, base, 0);
      if v.None? then None
      else
        var n: int := v.value;
        Some(if negative then -n else n)
  }

  lemma {:induction false} ValueAppend(s: string, c: char, base: nat, before: nat)
    ensures var v := Value(s, base, before); var d := DigitValue(c);
      Value(s + [c], base, before) ==
        if v.None? || d.None? || d.value >= base then None else Some(v.value * base + d.value)
  {
    if s != [] {
      assert (s + [c])[1..] == s[1..] + [c];
      var d := DigitValue(s[0]);
      if d.Some? && d.value < base { ValueAppend(s[1..], c, base, before * base + d.value); }
    } else {
      assert (s + [c])[1..] == [];
    }
  }

  lemma {:induction false} ValueOfNumeral(n: nat, base: nat, lowercase: bool)
    requires 2 <= base <= 36
    ensures Value(Numeral(n, base, lowercase), base, 0) == Some(n)
    decreases n
  {
    if n < base {
      DigitRoundTrip(n, lowercase);
      assert Value([DigitChar(n, lowercase)], base, 0) == Value([], base, 0 * base + n);
    } else {
      var q, r := n / base, n % base;
      Division(n, base);
      ValueOfNumeral(q, base, lowercase);
      DigitRoundTrip(r, lowercase);
      ValueAppend(Numeral(q, base, lowercase), DigitChar(r, lowercase), base, 0);
    }
  }

  lemma {:induction false} LeadingDigit(n: nat, base: nat, lowercase: bool)
    requires 2 <= base <= 36
    ensures Numeral(n, base, lowercase)[0] != '-'
    ensures Numeral(n, base, lowercase)[0] == '0' ==> n == 0
    decreases n
  {
    if n < base {
      DigitRoundTrip(n, lowercase);
    } else {
      Division(n, base);
      LeadingDigit(n / base, base, lowercase);
    }
  }

  /** Reading the text of a number gives that number back; no text but "0" starts with a zero. */
  lemma TextRoundTrip(x: int, base: nat, lowercase: bool)
    requires 2 <= base <= 36
    ensures Parse(Text(x, base, lowercase), base) == Some(x)
    ensures Text(x, base, lowercase)[|Sign(x)|] == '0' ==> x == 0
  {
    ValueOfNumeral(Abs(x), base, lowercase);
    LeadingDigit(Abs(x), base, lowercase);
    var digits := Numeral(Abs(x), base, lowercase);
    if x < 0 {
      assert ("-" + digits)[1..] == digits;
    } else {
      assert "" + digits == digits;
    }
  }

  // ---- into a buffer ----

  /** The digits that find room: all of them, or the least significant ones. */
  function Kept(ds: seq<nat>, room: nat): seq<nat> {
    if |ds| <= room then ds else ds[..room]
  }

  /** What is written for a number into a buffer of the given size, without the terminating null character. */
  function Written(x: int, base: nat, lowercase: bool, size: nat): (s: string)
    requires 2 <= base <= 36
  {
    if size == 0 then "" else Sign(x) + Reverse(Chars(Kept(Digits(Abs(x), base), size - |Sign(x)|), lowercase))
  }

  // ---- the same, character by character ----

  /** The d-th of the characters 0 to 9 and a to z, or A to Z. */
  function Letter(d: nat, lowercase: bool): char
    requires d < 36
  {
    if d < 10 then ('0' as nat + d) as char
    else if lowercase then ('a' as nat + (d - 10)) as char
    else ('A' as nat + (d - 10)) as char
  }

  /** What is left of n after k divisions by the base. */
  function Divided(n: nat, base: nat, k: nat): nat
    requires 2 <= base
  {
    if k == 0 then n else Divided(n / base, base, k - 1)
  }

  function Place(n: nat, base: nat, k: nat): (d: nat)
    requires 2 <= base
    ensures d < base
  {
    Divided(n, base, k) % base
  }

  /** The last characters of w are the lowest digits of n, in the letter case asked for. */
  ghost predicate EndsInDigits(w: string, n: nat, base: nat, lowercase: bool, digits: nat)
    requires 2 <= base <= 36
  {
    digits <= |w| && forall k :: 0 <= k < digits ==> w[|w| - 1 - k] == Letter(Place(n, base, k), lowercase)
  }

  /** So many digits find room: all, if there is more room; and the first is no zero unless it is the only one. */
  ghost predicate AsManyDigits(n: nat, base: nat, digits: nat, room: nat)
    requires 2 <= base
  {
    && digits <= room && (digits < room ==> digits > 0 && Divided(n, base, digits) == 0)
    && (digits > 1 ==> Divided(n, base, digits - 1) > 0)
  }

  /** The text w stands for x in a buffer of the given size: a sign if x is negative, and its digits. */
  ghost predicate Spells(w: string, x: int, base: nat, lowercase: bool, size: nat)
    requires 2 <= base <= 36
  {
    var n: nat := if x < 0 then -x else x;
    var sign := if x < 0 then 1 else 0;
    if size == 0 then w == ""
    else
      && sign <= |w| && (x < 0 ==> w[0] == '-')
      && EndsInDigits(w, n, base, lowercase, |w| - sign)
      && AsManyDigits(n, base, |w| - sign, size - sign)
  }

  lemma {:induction false} DigitsAreRemainders(n: nat, base: nat, k: nat)
    requires 2 <= base && k < |Digits(n, base)|
    ensures Digits(n, base)[k] == Place(n, base, k)
    ensures Divided(n, base, k + 1) == 0 <==> k + 1 == |Digits(n, base)|
    ensures k > 0 ==> Divided(n, base, k) > 0
    decreases k
  {
    Division(n, base);
    if k > 0 { DigitsAreRemainders(n / base, base, k - 1); }
    assert Divided(n, base, 1) == Divided(n / base, base, 0);
  }

  lemma KeptDigit(sign: string, ds: seq<nat>, room: nat, lowercase: bool, k: nat)
    requires forall i :: 0 <= i < |ds| ==> ds[i] < 36
    requires k < |ds| && k < room
    ensures var w := sign + Reverse(Chars(Kept(ds, room), lowercase));
      k < |w| && w[|w| - 1 - k] == Letter(ds[k], lowercase)
  {
  }

  lemma DigitsAtEnd(sign: string, n: nat, base: nat, room: nat, lowercase: bool)
    requires 2 <= base <= 36
    ensures var kept := Kept(Digits(n, base), room);
      EndsInDigits(sign + Reverse(Chars(kept, lowercase)), n, base, lowercase, |kept|)
  {
    var ds := Digits(n, base);
    var w := sign + Reverse(Chars(Kept(ds, room), lowercase));
    forall k | 0 <= k < |Kept(ds, room)| ensures w[|w| - 1 - k] == Letter(Place(n, base, k), lowercase) {
      KeptDigit(sign, ds, room, lowercase, k);
      DigitsAreRemainders(n, base, k);
    }
  }

  lemma KeptDigits(n: nat, base: nat, room: nat)
    requires 2 <= base
    ensures AsManyDigits(n, base, |Kept(Digits(n, base), room)|, room)
  {
    if room > 0 { DigitsAreRemainders(n, base, |Kept(Digits(n, base), room)| - 1); }
  }

  lemma WrittenSpells(x: int, base: nat, lowercase: bool, size: nat)
    requires 2 <= base <= 36
    ensures Spells(Written(x, base, lowercase, size), x, base, lowercase, size)
  {
    if size > 0 {
      var room := size - |Sign(x)|;
      DigitsAtEnd(Sign(x), Abs(x), base, room, lowercase);
      KeptDigits(Abs(x), base, room);
      assert |Written(x, base, lowercase, size)| - |Sign(x)| == |Kept(Digits(Abs(x), base), room)|;
    }
  }

  lemma {:induction false} DividedStaysZero(n: nat, base: nat, k: nat, j: nat)
    requires 2 <= base && k <= j && Divided(n, base, k) == 0
    ensures Divided(n, base, j) == 0
    decreases j
  {
    if k > 0 {
      DividedStaysZero(n / base, base, k - 1, j - 1);
    } else if j > 0 {
      assert Divided(n / base, base, 0) == 0;
      DividedStaysZero(n / base, base, 0, j - 1);
    }
  }

  lemma FewerDigits(n: nat, base: nat, digits: nat, more: nat, room: nat)
    requires 2 <= base && AsManyDigits(n, base, digits, room) && AsManyDigits(n, base, more, room)
    ensures !(digits < more)
  {
    if digits < more { DividedStaysZero(n, base, digits, more - 1); }
  }

  /** There is only one such text. */
  lemma SpellsUnique(v: string, w: string, x: int, base: nat, lowercase: bool, size: nat)
    requires 2 <= base <= 36 && Spells(v, x, base, lowercase, size) && Spells(w, x, base, lowercase, size)
    ensures v == w
  {
    var n, sign := Abs(x), |Sign(x)|;
    if size > 0 {
      FewerDigits(n, base, |v| - sign, |w| - sign, size - sign);
      FewerDigits(n, base, |w| - sign, |v| - sign, size - sign);
      forall i | 0 <= i < |v| ensures v[i] == w[i] {
        if i >= sign {
          var k := |v| - 1 - i;
          assert v[|v| - 1 - k] == Letter(Place(n, base, k), lowercase) == w[|w| - 1 - k];
        }
      }
    }
  }

  /** No character is a capital letter if small ones are asked for, and the other way round. */
  lemma LetterCase(x: int, base: nat, lowercase: bool, size: nat, i: nat)
    requires 2 <= base <= 36 && i < |Written(x, base, lowercase, size)|
    ensures var c := Written(x, base, lowercase, size)[i];
      if lowercase then !('A' <= c <= 'Z') else !('a' <= c <= 'z')
  {
    var w := Written(x, base, lowercase, size);
    WrittenSpells(x, base, lowercase, size);
    var k := |w| - 1 - i;
    if x >= 0 || i > 0 { assert w[i] == Letter(Place(Abs(x), base, k), lowercase); }
  }

  // ---- what a reader finds ----

  /** The string a reader finds in a buffer, up to the first null character; None if there is none. */
  function ReadString(buffer: string): Option<string> {
    if buffer == [] then None
    else if buffer[0] == '\0' then Some("")
    else
      var rest := ReadString(buffer[1..]);
      if rest.None? then None else Some([buffer[0]] + rest.value)
  }

  lemma {:induction false} ReadUpToNull(s: string, rest: string)
    requires forall i :: 0 <= i < |s| ==> s[i] != '\0'
    ensures ReadString(s + rest) == match ReadString(rest) case None => None case Some(r) => Some(s + r)
  {
    if s == "" {
      assert s + rest == rest;
      if ReadString(rest).Some? { assert s + ReadString(rest).value == ReadString(rest).value; }
    } else {
      assert (s + rest)[1..] == s[1..] + rest;
      ReadUpToNull(s[1..], rest);
      if ReadString(rest).Some? { assert [s[0]] + (s[1..] + ReadString(rest).value) == s + ReadString(rest).value; }
    }
  }

  lemma TextHasNoNull(x: int, base: nat, lowercase: bool, size: nat)
    requires 2 <= base <= 36
    ensures forall i :: 0 <= i < |Written(x, base, lowercase, size)| ==> Written(x, base, lowercase, size)[i] != '\0'
  {
    if size > 0 {
      var ds := Kept(Digits(Abs(x), base), size - |Sign(x)|);
      forall i | 0 <= i < |ds| ensures DigitChar(ds[i], lowercase) != '\0' { DigitRoundTrip(ds[i], lowercase); }
    }
  }

  /** What kint_to_string leaves in the first size characters of a buffer. */
  ghost predicate Filled(buffer: string, x: int, base: nat, lowercase: bool, size: nat)
    requires 2 <= base <= 36
  {
    var w := Written(x, base, lowercase, size);
    && |w| <= size <= |buffer| && buffer[..|w|] == w
    && (|w| < size ==> buffer[|w|] == '\0')
  }

  /** Reading the buffer gives the number back exactly if the buffer is longer than the number's text. */
  lemma BufferRoundTrip(buffer: string, x: int, base: nat, lowercase: bool, size: nat)
    requires 2 <= base <= 36 && Filled(buffer, x, base, lowercase, size)
    ensures (match ReadString(buffer[..size]) case None => None case Some(s) => Parse(s, base)) == Some(x)
       <==> size > |Text(x, base, lowercase)|
  {
    var w := Written(x, base, lowercase, size);
    TextHasNoNull(x, base, lowercase, size);
    TextRoundTrip(x, base, lowercase);
    NumeralIsDigits(Abs(x), base, lowercase);
    if |w| < size {
      var rest := buffer[|w|..size];
      assert buffer[..size] == w + rest;
      assert ReadString(rest) == Some("");
      ReadUpToNull(w, rest);
      assert w + "" == w;
      assert w == Text(x, base, lowercase);
    } else {
      assert buffer[..size] == w + "";
      ReadUpToNull(w, "");
    }
  }

  /** The first loop of kint_to_string has written the digits ds, least significant first, from position start on. */
  ghost predicate DigitsAt(buffer: seq<char>, start: nat, index: nat, ds: seq<nat>, lowercase: bool) {
    && start + |ds| == index <= |buffer|
    && forall i :: 0 <= i < |ds| ==> ds[i] < 36 && buffer[start + i] == DigitChar(ds[i], lowercase)
  }

  /** A 64-bit value read as unsigned. */
  function ToUnsigned(x: Int64): nat {
    if x < 0 then x + UINT64 else x
  }

  /** Division of the source, which drops the fraction. */
  function Truncated(x: int, base: nat): int
    requires base > 0
  {
    if x < 0 then -(-x / base) else x / base
  }

  /** One round of the digit loop: the lowest digit, and what is left of the number. */
  method NextDigit(rest: Int64, base: nat) returns (digit: nat, left: Int64)
    requires 2 <= base <= 36
    ensures digit < base && (rest != 0 ==> Abs(left) < Abs(rest)) && (rest == 0 ==> left == 0)
    ensures rest >= 0 ==> left >= 0 && Digits(rest, base) == [digit] + if left == 0 then [] else Digits(left, base)
  {
    Division(Abs(rest), base);
    digit := ToUnsigned(rest) % base;
    left := Truncated(rest, base);
  }

  function Min(a: nat, b: nat): nat {
    if a < b then a else b
  }

  /** One more digit, if there is room for it. */
  method PutDigit(buffer: array<char>, index: nat, size: nat, digit: nat, lowercase: bool) returns (next: nat)
    requires index <= size <= buffer.Length && digit < 36
    modifies buffer
    ensures next == Min(index + 1, size)
    ensures buffer[..] ==
      if index < size then old(buffer[..])[index := DigitChar(digit, lowercase)] else old(buffer[..])
  {
    next := index;
    if next < size {
      buffer[next] := DigitChar(digit, lowercase);
      next := next + 1;
    }
  }

  /** The buffer after k rounds of the digit loop: the digits that found room, and nothing else, are written. */
  ghost predicate Progress(before: string, now: string, at: nat, index: nat, size: nat, ds: seq<nat>, k: nat,
                           lowercase: bool)
  {
    && at <= size <= |before| == |now| && index == at + Min(k, size - at) && index - at <= |ds|
    && DigitsAt(now, at, index, ds[..index - at], lowercase)
    && forall j :: 0 <= j < |now| && !(at <= j < index) ==> now[j] == before[j]
  }

  lemma OneMoreDigit(before: string, now: string, at: nat, index: nat, size: nat, ds: seq<nat>, k: nat,
                     lowercase: bool)
    requires Progress(before, now, at, index, size, ds, k, lowercase)
    requires index < size ==> k < |ds| && ds[k] < 36
    ensures var now' := if index < size then now[index := DigitChar(ds[k], lowercase)] else now;
      Progress(before, now', at, Min(index + 1, size), size, ds, k + 1, lowercase)
  {
    if index < size {
      assert ds[..index + 1 - at] == ds[..index - at] + [ds[k]];
    }
  }

  /** The first loop of kint_to_string: the digits, the least significant first, as far as there is room. */
  method WriteDigits(number: Int64, buffer: array<char>, at: nat, size: nat, base: nat, lowercase: bool)
    returns (index: nat)
    requires 2 <= base <= 36 && at <= size <= buffer.Length && (size == 0 || number >= 0)
    modifies buffer
    ensures size > 0 ==> var ds := Digits(number, base);
      Progress(old(buffer[..]), buffer[..], at, index, size, ds, |ds|, lowercase)
    ensures size == 0 ==> index == 0 && buffer[..] == old(buffer[..])
  {
    index := at;
    var rest: Int64 := number;
    ghost var ds := if size == 0 then [] else Digits(number, base);
    ghost var k := 0;
    while true
      invariant size > 0 ==> rest >= 0 && k < |ds| && Digits(rest, base) == ds[k..]
      invariant Progress(old(buffer[..]), buffer[..], at, index, size, ds, k, lowercase)
      decreases Abs(rest)
    {
      var current;
      current, rest := NextDigit(rest, base);
      if size > 0 { NextOf(ds, k, current, if rest == 0 then [] else Digits(rest, base)); }
      OneMoreDigit(old(buffer[..]), buffer[..], at, index, size, ds, k, lowercase);
      index := PutDigit(buffer, index, size, current, lowercase);
      k := k + 1;
      if rest == 0 {
        break;
      }
    }
  }

  lemma NextOf(ds: seq<nat>, k: nat, d: nat, rest: seq<nat>)
    requires k < |ds| && ds[k..] == [d] + rest
    ensures ds[k] == d && ds[k + 1..] == rest && (k + 1 < |ds| <==> rest != [])
  {
    assert ds[k..][1..] == ds[k + 1..];
  }

  /** The characters from start up to index stand in reverse order, all others where they were. */
  ghost predicate Mirrored(b: string, b': string, start: nat, index: nat) {
    && start <= index <= |b| == |b'|
    && (forall j :: start <= j < index ==> b'[j] == b[start + index - 1 - j])
    && (forall j :: 0 <= j < |b| && !(start <= j < index) ==> b'[j] == b[j])
  }

  /**
   The last loop of kint_to_string. It swaps index / 2 pairs even if a sign is left in place; the one swap
   too many, for an odd number of digits, swaps the middle digit with itself.
   */
  method ReverseDigits(buffer: array<char>, index: nat)
    requires 0 < buffer.Length && index <= buffer.Length
    modifies buffer
    ensures Mirrored(old(buffer[..]), buffer[..], if old(buffer[0]) == '-' && index > 0 then 1 else 0, index)
  {
    var start := if buffer[0] == '-' then 1 else 0;
    ghost var t := buffer[..];
    for i := 0 to index / 2
      invariant forall j :: start <= j < start + i ==> buffer[j] == t[start + index - 1 - j]
      invariant forall j :: index - i <= j < index ==> buffer[j] == t[start + index - 1 - j]
      invariant forall j :: 0 <= j < buffer.Length && !(start <= j < start + i) && !(index - i <= j < index) ==>
        buffer[j] == t[j]
    {
      var temp := buffer[i + start];
      buffer[i + start] := buffer[index - i - 1];
      buffer[index - i - 1] := temp;
    }
  }

  /** The digits that found room, reversed behind the sign. */
  lemma SignAndDigits(before: string, b: string, b': string, sign: string, ds: seq<nat>, size: nat, index: nat,
                      lowercase: bool)
    requires sign == "" || (sign == "-" && b' != "" && b'[0] == '-')
    requires forall i :: 0 <= i < |ds| ==> ds[i] < 36
    requires Progress(before, b, |sign|, index, size, ds, |ds|, lowercase) && |b'| == |b|
    requires forall j :: |sign| <= j < index ==> b'[j] == b[|sign| + index - 1 - j]
    ensures b'[..index] == sign + Reverse(Chars(Kept(ds, size - |sign|), lowercase))
  {
    MirroredChars(b, b', |sign|, index, Kept(ds, size - |sign|), lowercase);
    assert b'[..index] == b'[..|sign|] + b'[|sign|..index];
  }

  lemma MirroredChars(b: string, b': string, start: nat, index: nat, ds: seq<nat>, lowercase: bool)
    requires |b| == |b'| && DigitsAt(b, start, index, ds, lowercase)
    requires forall j :: start <= j < index ==> b'[j] == b[start + index - 1 - j]
    ensures b'[start..index] == Reverse(Chars(ds, lowercase))
  {
    var cs := Reverse(Chars(ds, lowercase));
    forall i | 0 <= i < |cs| ensures b'[start + i] == cs[i] {
      var k := |ds| - 1 - i;
      assert b'[start + i] == b[start + k];
    }
  }

  function Signed(b: string, x: int): string
    requires b != ""
  {
    if x < 0 then b[0 := '-'] else b
  }

  function Terminated(b: string, index: nat, size: nat): string
    requires size <= |b|
  {
    if index < size then b[index := '\0'] else b
  }

  /** A sign stays in front of the digits; without one, the first digit is no minus sign. */
  lemma SignInFront(b: string, digits: string, x: int, size: nat, ds: seq<nat>, index: nat, lowercase: bool)
    requires b != "" && 0 < size && ds != []
    requires Progress(Signed(b, x), digits, |Sign(x)|, index, size, ds, |ds|, lowercase)
    ensures index > 0 && (Terminated(digits, index, size)[0] == '-' <==> x < 0)
  {
    if x >= 0 { DigitRoundTrip(ds[0], lowercase); }
  }

  ghost predicate UntouchedBehind(b: string, b': string, length: nat, size: nat)
    requires |b'| == |b|
  {
    forall j :: length < j < |b| || size <= j < |b| ==> b'[j] == b[j]
  }

  lemma TerminatedThere(b: string, digits: string, b': string, x: int, size: nat, ds: seq<nat>, index: nat,
                        lowercase: bool)
    requires b != "" && Progress(Signed(b, x), digits, |Sign(x)|, index, size, ds, |ds|, lowercase)
    requires Mirrored(Terminated(digits, index, size), b', |Sign(x)|, index)
    ensures index <= size <= |b'| == |b| && UntouchedBehind(b, b', index, size)
    ensures index < size ==> b'[index] == '\0'
  {
  }

  /** The three loops and the terminating null character leave the text that is to be written, and no other change. */
  lemma LeavesText(b: string, digits: string, b': string, x: int, base: nat, lowercase: bool, size: nat, index: nat)
    requires 2 <= base <= 36 && 0 < size && b != ""
    requires Progress(Signed(b, x), digits, |Sign(x)|, index, size, Digits(Abs(x), base), |Digits(Abs(x), base)|,
                      lowercase)
    requires Mirrored(Terminated(digits, index, size), b', |Sign(x)|, index)
    ensures Filled(b', x, base, lowercase, size)
    ensures |b'| == |b| && UntouchedBehind(b, b', |Written(x, base, lowercase, size)|, size)
  {
    var ds := Digits(Abs(x), base);
    TerminatedThere(b, digits, b', x, size, ds, index, lowercase);
    var w := Sign(x) + Reverse(Chars(Kept(ds, size - |Sign(x)|), lowercase));
    assert b'[..index] == w by { SignAndDigits(Signed(b, x), digits, b', Sign(x), ds, size, index, lowercase); }
    assert w == Written(x, base, lowercase, size);
  }

  /** The end of kint_to_string: the null character, if there is room for it, and the last loop. */
  method TerminateAndReverse(buffer: array<char>, index: nat, size: nat)
    requires 0 < buffer.Length && index <= size <= buffer.Length
    modifies buffer
    ensures var ended := Terminated(old(buffer[..]), index, size);
      Mirrored(ended, buffer[..], if ended[0] == '-' && index > 0 then 1 else 0, index)
  {
    if index < size {
      buffer[index] := '\0';
    }
    ReverseDigits(buffer, index);
  }

  /** kint_to_string. The least 64-bit number is excluded where it would be negated, for that overflows. */
  method KIntToString(input: Int64, buffer: array<char>, size: nat, base: nat, lowercase: bool)
    requires size == 0 || INT64_MIN < input
    requires 2 <= base <= 36 && size <= buffer.Length && 0 < buffer.Length
    modifies buffer
    ensures Filled(buffer[..], input, base, lowercase, size)
    ensures Spells(buffer[..|Written(input, base, lowercase, size)|], input, base, lowercase, size)
    ensures UntouchedBehind(old(buffer[..]), buffer[..], |Written(input, base, lowercase, size)|, size)
  {
    var index := 0;
    var rest := input;
    if 0 < size && rest < 0 {
      buffer[index] := '-';
      index := 1;
      rest := -rest;
    }
    index := WriteDigits(rest, buffer, index, size, base, lowercase);
    ghost var digits := buffer[..];
    if size > 0 { SignInFront(old(buffer[..]), digits, input, size, Digits(rest, base), index, lowercase); }
    TerminateAndReverse(buffer, index, size);
    if size > 0 { LeavesText(old(buffer[..]), digits, buffer[..], input, base, lowercase, size, index); }
    WrittenSpells(input, base, lowercase, size);
  }
}
