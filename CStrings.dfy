/** The NUL-terminated string helpers of the debugger. A C string is modelled by
    the characters before its terminator, so it never contains '\0'. */
module CStrings {
  import opened Wrappers
  import opened Machine

  type CString = s: seq<char> | '\0' !in s

  /** `CharInString`: whether `c` occurs before the terminator. */
  function CharInString(s: CString, c: char): (found: bool)
    ensures found <==> c in s
  {
    if |s| == 0 then false
    else s[0] == c || CharInString(s[1..], c)
  }

  /** `StringCountChar`: the number of occurrences of `c`, in a `u32` counter. */
  method StringCountChar(s: CString, c: char) returns (n: nat)
    ensures n == multiset(s)[c] % 0x1_0000_0000
  {
    n := 0;
    var i := 0;
    while i < |s|
      invariant 0 <= i <= |s|
      invariant n == multiset(s[..i])[c] % 0x1_0000_0000
    {
      assert s[..i + 1] == s[..i] + [s[i]];
      assert multiset(s[..i + 1])[c] == multiset(s[..i])[c] + (if s[i] == c then 1 else 0);
      if s[i] == c {
        CountWraps(multiset(s[..i])[c]);
        n := (n + 1) % 0x1_0000_0000;
      }
      i := i + 1;
    }
    assert s[..i] == s;
  }

  lemma CountWraps(m: nat)
    ensures (m % 0x1_0000_0000 + 1) % 0x1_0000_0000 == (m + 1) % 0x1_0000_0000
  {
  }

  /** `StringCopy`: writes the characters of `src` and a terminator at the start of `dest`. */
  method StringCopy(dest: array<char>, src: CString)
    requires |src| < dest.Length
    modifies dest
    ensures dest[..|src|] == src && dest[|src|] == '\0'
    ensures dest[|src| + 1..] == old(dest[|src| + 1..])
  {
    var i := 0;
    while i < |src|
      invariant 0 <= i <= |src|
      invariant dest[..i] == src[..i]
      invariant dest[i..] == old(dest[i..])
    {
      dest[i] := src[i];
      i := i + 1;
    }
    dest[i] := '\0';
  }

  /** `StringsMatch`: walks both strings while both have characters left and
      reports a mismatch only at a position where both have a character. */
  function StringsMatch(a: CString, b: CString): (r: bool)
    ensures !r <==> exists i :: 0 <= i < |a| && i < |b| && a[i] != b[i]
  {
    if |a| == 0 || |b| == 0 then true
    else if a[0] != b[0] then false
    else
      var r := StringsMatch(a[1..], b[1..]);
      assert forall i :: 1 <= i < |a| && i < |b| ==> a[i] == a[1..][i - 1] && b[i] == b[1..][i - 1];
      r
  }

  predicate IsPrefix(a: seq<char>, b: seq<char>) {
    |a| <= |b| && b[..|a|] == a
  }

  /** So `StringsMatch` is the prefix relation in either direction, not equality;
      in particular the empty string matches every string. */
  lemma StringsMatchIsPrefixRelation(a: CString, b: CString)
    ensures StringsMatch(a, b) <==> IsPrefix(a, b) || IsPrefix(b, a)
    ensures StringsMatch(a, b) == StringsMatch(b, a)
    ensures StringsMatch(a, a) && StringsMatch([], b)
  {
    if StringsMatch(a, b) {
      if |a| <= |b| {
        assert forall i :: 0 <= i < |a| ==> b[..|a|][i] == a[i];
      } else {
        assert forall i :: 0 <= i < |b| ==> a[..|b|][i] == b[i];
      }
    } else {
      var i :| 0 <= i < |a| && i < |b| && a[i] != b[i];
      if |a| <= |b| {
        assert b[..|a|][i] != a[i];
      } else {
        assert a[..|b|][i] != b[i];
      }
    }
  }

  predicate IsHexDigit(c: char) {
    '0' <= c <= '9' || 'a' <= c <= 'f' || 'A' <= c <= 'F'
  }

  function HexDigitValue(c: char): (v: nat)
    requires IsHexDigit(c)
    ensures v < 16
  {
    if '0' <= c <= '9' then c as int - '0' as int
    else if 'a' <= c <= 'f' then c as int - 'a' as int + 10
    else c as int - 'A' as int + 10
  }

  /** The value of a string of hexadecimal digits, most significant first, without any bound. */
  function HexValue(s: seq<char>): nat
    requires forall k :: 0 <= k < |s| ==> IsHexDigit(s[k])
  {
    if s == [] then 0 else HexValue(s[..|s| - 1]) * 16 + HexDigitValue(s[|s| - 1])
  }

  /** The position of the first occurrence of `c`. */
  function IndexOf(s: seq<char>, c: char): (i: nat)
    requires c in s
    ensures i < |s| && s[i] == c && c !in s[..i]
  {
    if s[0] == c then 0
    else
      var i := IndexOf(s[1..], c) + 1;
      assert s[..i] == [s[0]] + s[1..][..i - 1];
      i
  }

  /** The characters after the first 'x'. */
  function AfterFirstX(s: seq<char>): seq<char>
    requires 'x' in s
  {
    s[IndexOf(s, 'x') + 1..]
  }

  /** `TO_LOWERCASE` on ASCII letters. */
  function ToLower(c: char): char {
    if 'A' <= c <= 'Z' then (c as int + 32) as char else c
  }

  lemma {:induction false} ShiftInDigit(h: nat, d: nat)
    ensures ((h % WordModulus) * 16 % WordModulus + d) % WordModulus == (h * 16 + d) % WordModulus
  {
    var q := h / WordModulus;
    var r := h % WordModulus;
    assert h * 16 + d == (q * 16) * WordModulus + (r * 16 + d);
    var q2 := (r * 16) / WordModulus;
    assert r * 16 == q2 * WordModulus + (r * 16) % WordModulus;
    assert r * 16 + d == q2 * WordModulus + ((r * 16) % WordModulus + d);
    ModAddMultiple(q * 16 + q2, (r * 16) % WordModulus + d);
    assert h * 16 + d == (q * 16 + q2) * WordModulus + ((r * 16) % WordModulus + d);
  }

  lemma ModAddMultiple(k: nat, x: nat)
    ensures (k * WordModulus + x) % WordModulus == x % WordModulus
  {
  }

  datatype HexError = NotAHexDigit(c: char)

  /** `HexStringToInt`: the caller guarantees an 'x' (it checks with `CharInString`).
      Every character after the first 'x' must be a hexadecimal digit, in either case;
      the value is accumulated in a `u64` and so wraps modulo 2^64. */
  method HexStringToInt(s: CString) returns (r: Result<Word, HexError>)
    requires 'x' in s
    ensures r.Success? <==> forall k :: 0 <= k < |AfterFirstX(s)| ==> IsHexDigit(AfterFirstX(s)[k])
    ensures r.Success? ==> r.value == HexValue(AfterFirstX(s)) % WordModulus
  {
    var x := FindFirstX(s);
    assert s[x + 1..] == AfterFirstX(s);
    r := AccumulateHex(s, x + 1);
  }

  /** The digit loop: the characters from `from` on, read as hexadecimal digits
      into a `u64`, or the first that is not one. */
  method AccumulateHex(s: CString, from: nat) returns (r: Result<Word, HexError>)
    requires from <= |s|
    ensures r.Success? <==> forall k :: 0 <= k < |s[from..]| ==> IsHexDigit(s[from..][k])
    ensures r.Success? ==> r.value == HexValue(s[from..]) % WordModulus
  {
    ghost var digits := s[from..];
    ghost var done: seq<char> := [];
    var result: Word := 0;
    var i := from;
    while i < |s|
      invariant from <= i <= |s|
      invariant done == s[from..i]
      invariant forall k :: 0 <= k < |done| ==> IsHexDigit(done[k])
      invariant result == HexValue(done) % WordModulus
    {
      var c := s[i];
      var d := DigitValue(c);
      if d.None? {
        assert digits[|done|] == c && !IsHexDigit(c);
        return Failure(NotAHexDigit(c));
      }
      AccumulateDigit(result, done, c);
      result := ((result * 16) % WordModulus + d.value) % WordModulus;
      done := done + [c];
      i := i + 1;
    }
    assert done == digits;
    return Success(result);
  }

  /** The scan for the first 'x'. */
  method FindFirstX(s: CString) returns (i: nat)
    requires 'x' in s
    ensures i == IndexOf(s, 'x')
  {
    i := 0;
    while i < |s| && s[i] != 'x'
      invariant 0 <= i <= |s|
      invariant 'x' !in s[..i]
    {
      assert s[..i + 1] == s[..i] + [s[i]];
      i := i + 1;
    }
    FirstXFound(s, i);
  }

  /** One character of the hexadecimal loop: a decimal digit, or a letter 'a'..'f'
      once lower-cased; anything else is refused. */
  method DigitValue(c: char) returns (d: Option<nat>)
    ensures d.Some? <==> IsHexDigit(c)
    ensures d.Some? ==> d.value == HexDigitValue(c)
  {
    if '0' <= c <= '9' {
      return Some(c as int - '0' as int);
    }
    var lower := ToLower(c);
    if !('a' <= lower <= 'f') {
      return None;
    }
    return Some((lower as int - 'a' as int) + 10);
  }

  lemma FirstXFound(s: seq<char>, i: nat)
    requires 'x' in s && i <= |s| && 'x' !in s[..i] && (i == |s| || s[i] == 'x')
    ensures i == IndexOf(s, 'x')
  {
    var x := IndexOf(s, 'x');
    assert forall j :: 0 <= j < i ==> s[..i][j] == s[j];
    assert forall j :: 0 <= j < x ==> s[..x][j] == s[j];
  }

  lemma AccumulateDigit(result: Word, done: seq<char>, c: char)
    requires forall k :: 0 <= k < |done| ==> IsHexDigit(done[k])
    requires IsHexDigit(c) && result == HexValue(done) % WordModulus
    ensures forall k :: 0 <= k < |done + [c]| ==> IsHexDigit((done + [c])[k])
    ensures ((result * 16) % WordModulus + HexDigitValue(c)) % WordModulus == HexValue(done + [c]) % WordModulus
  {
    ShiftIn(done, c);
    ShiftInDigit(HexValue(done), HexDigitValue(c));
  }

  lemma ShiftIn(done: seq<char>, c: char)
    requires forall k :: 0 <= k < |done| ==> IsHexDigit(done[k])
    requires IsHexDigit(c)
    ensures forall k :: 0 <= k < |done + [c]| ==> IsHexDigit((done + [c])[k])
    ensures HexValue(done + [c]) == HexValue(done) * 16 + HexDigitValue(c)
  {
    assert (done + [c])[..|done|] == done;
  }

  function HexDigitChar(d: nat): (c: char)
    requires d < 16
    ensures IsHexDigit(c) && HexDigitValue(c) == d
  {
    if d < 10 then ('0' as int + d) as char else ('A' as int + d - 10) as char
  }

  /** A number printed in hexadecimal the way the register view prints it (`%lX`: upper case, no leading zeros). */
  function HexDigits(n: nat): (s: seq<char>)
    ensures |s| > 0 && forall k :: 0 <= k < |s| ==> IsHexDigit(s[k]) && s[k] != 'x' && s[k] != '\0'
  {
    if n < 16 then [HexDigitChar(n)] else HexDigits(n / 16) + [HexDigitChar(n % 16)]
  }

  /** Parsing inverts printing: a `u64` printed in hex and prefixed by "0x", as typed into the breakpoint box, is read back unchanged. */
  lemma {:induction false} HexRoundTrip(n: Word)
    ensures var s := "0x" + HexDigits(n);
      '\0' !in s && 'x' in s && AfterFirstX(s) == HexDigits(n) &&
      HexValue(HexDigits(n)) % WordModulus == n
  {
    var s := "0x" + HexDigits(n);
    assert s[1] == 'x' && s[0] != 'x';
    assert s[..1] == "0";
    assert IndexOf(s, 'x') == 1;
    HexValueOfDigits(n);
  }

  lemma {:induction false} HexValueOfDigits(n: nat)
    ensures HexValue(HexDigits(n)) == n
  {
    if n >= 16 {
      HexValueOfDigits(n / 16);
      var s := HexDigits(n);
      assert s[..|s| - 1] == HexDigits(n / 16);
    }
  }
}
