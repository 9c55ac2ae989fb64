/**
 * Models of the C library routines the branch server relies on, stated over
 * character sequences. A C `char` is modelled as a Dafny `char`; a C string
 * held in a buffer ends at the buffer's first NUL.
 */
module Libc {

  datatype Option<T> = None | Some(value: T)

  const NUL: char := '\0'

  function Min(a: int, b: int): int
  {
    if a < b then a else b
  }

  /**
   * The characters of the C string stored in `s`: everything before the first
   * NUL (what strlen measures, what `%s` and strstr read).
   */
  function CStr(s: seq<char>): (r: seq<char>)
    ensures r <= s
    ensures NUL !in r
    ensures |r| < |s| ==> s[|r|] == NUL
  {
    if s == [] || s[0] == NUL then [] else [s[0]] + CStr(s[1..])
  }

  /** Writing a NUL after `s` ends the C string there, whatever follows. */
  lemma {:induction false} CStrUpToNul(s: seq<char>, t: seq<char>)
    ensures CStr(s + [NUL] + t) == CStr(s)
  {
    if s != [] && s[0] != NUL {
      assert (s + [NUL] + t)[1..] == s[1..] + [NUL] + t;
      CStrUpToNul(s[1..], t);
    }
  }

  /** A buffer without a NUL is read in full. */
  lemma CStrOfNulFree(s: seq<char>)
    requires NUL !in s
    ensures CStr(s) == s
  {
  }

  /** strchr: the index of the first occurrence of `ch`, if any. */
  function StrChr(s: seq<char>, ch: char): (r: Option<nat>)
    ensures r.Some? ==> r.value < |s| && s[r.value] == ch && ch !in s[..r.value]
    ensures r.None? ==> ch !in s
  {
    if s == [] then None
    else if s[0] == ch then Some(0)
    else match StrChr(s[1..], ch)
      case None => None
      case Some(i) =>
        assert s[..i + 1] == [s[0]] + s[1..][..i];
        Some(i + 1)
  }

  /** `needle` occurs in `hay` starting at index `i`. */
  predicate OccursAt(hay: seq<char>, needle: seq<char>, i: nat)
  {
    i + |needle| <= |hay| && hay[i..i + |needle|] == needle
  }

  /** strstr: the index of the first occurrence of `needle` in `hay`, if any. */
  function StrStr(hay: seq<char>, needle: seq<char>): (r: Option<nat>)
    ensures r.Some? ==> OccursAt(hay, needle, r.value)
    ensures r.Some? ==> forall j: nat :: j < r.value ==> !OccursAt(hay, needle, j)
    ensures r.None? ==> forall j: nat :: !OccursAt(hay, needle, j)
  {
    SearchFrom(hay, needle, 0)
  }

  function SearchFrom(hay: seq<char>, needle: seq<char>, i: nat): (r: Option<nat>)
    requires i <= |hay|
    ensures r.Some? ==> i <= r.value && OccursAt(hay, needle, r.value)
    ensures r.Some? ==> forall j: nat :: i <= j < r.value ==> !OccursAt(hay, needle, j)
    ensures r.None? ==> forall j: nat :: i <= j ==> !OccursAt(hay, needle, j)
    decreases |hay| - i
  {
    if OccursAt(hay, needle, i) then Some(i)
    else if i == |hay| then None
    else SearchFrom(hay, needle, i + 1)
  }

  predicate IsDigit(c: char)
  {
    '0' <= c <= '9'
  }

  function DigitChar(d: nat): (c: char)
    requires d < 10
    ensures IsDigit(c)
  {
    (48 + d) as char
  }

  /** printf's `%d` for a non-negative value: its decimal digits, no leading zero. */
  function Decimal(n: nat): (s: seq<char>)
    ensures 0 < |s|
    ensures forall i :: 0 <= i < |s| ==> IsDigit(s[i])
    ensures s[0] == '0' <==> n == 0
    ensures n == 0 ==> s == "0"
    decreases n
  {
    if n < 10 then [DigitChar(n)] else Decimal(n / 10) + [DigitChar(n % 10)]
  }

  /** printf's `%d`: a minus sign for a negative value, then the digits of its magnitude. */
  function FormatInt(n: int): (s: seq<char>)
    ensures 0 < |s| && NUL !in s
    ensures s[0] == '-' <==> n < 0
    ensures forall i :: (if n < 0 then 1 else 0) <= i < |s| ==> IsDigit(s[i])
  {
    if n < 0 then "-" + Decimal(-n) else Decimal(n)
  }

  /** The number a string of decimal digits denotes (what `%d` in sscanf reads back). */
  function DecimalValue(s: seq<char>): nat
    requires forall i :: 0 <= i < |s| ==> IsDigit(s[i])
  {
    if s == [] then 0
    else
      assert IsDigit(s[|s| - 1]);
      10 * DecimalValue(s[..|s| - 1]) + (s[|s| - 1] as int - 48)
  }

  /** The digits `%d` prints read back as the same number. */
  lemma {:induction false} DecimalRoundTrip(n: nat)
    ensures DecimalValue(Decimal(n)) == n
    decreases n
  {
    if n >= 10 {
      var s := Decimal(n);
      assert s[..|s| - 1] == Decimal(n / 10);
      DecimalRoundTrip(n / 10);
    }
  }

  /** `%d` output read back (sign, then digits) gives the number that was printed. */
  lemma FormatIntReadsBack(n: int)
    ensures var s := FormatInt(n);
      if n < 0 then |s| > 1 && DecimalValue(s[1..]) == -n else DecimalValue(s) == n
  {
    if n < 0 {
      assert FormatInt(n)[1..] == Decimal(-n);
      DecimalRoundTrip(-n);
    } else {
      DecimalRoundTrip(n);
    }
  }
}
