/** itoa (lib/string.cpp): digits written backwards into a buffer and reversed in place. */
module Itoa {

  predicate IsRadix(b: nat) {
    b == 10 || b == 16
  }

  function DigitChar(r: nat): char
    requires r < 16
  {
    if r < 10 then '0' + r as char else 'a' + (r - 10) as char
  }

  function DigitValue(c: char): nat {
    if '0' <= c <= '9' then (c - '0') as nat else if 'a' <= c <= 'f' then 10 + (c - 'a') as nat else 0
  }

  /** The digits of n, the most significant first. */
  function Digits(n: nat, b: nat): (s: string)
    requires IsRadix(b)
    ensures s != ""
  {
    if n < b then [DigitChar(n)] else Digits(n / b, b) + [DigitChar(n % b)]
  }

  function Value(s: string, b: nat): nat {
    if s == "" then 0 else Value(s[..|s| - 1], b) * b + DigitValue(s[|s| - 1])
  }

  lemma {:induction false} ValueOfDigits(n: nat, b: nat)
    requires IsRadix(b)
    ensures Value(Digits(n, b), b) == n
  {
    var s := Digits(n, b);
    if n >= b {
      ValueOfDigits(n / b, b);
      assert s[..|s| - 1] == Digits(n / b, b);
      assert n / b * b + n % b == n;
    } else {
      assert s[..0] == "";
      assert Value(s, b) == Value("", b) * b + DigitValue(s[0]);
    }
  }

  /** The sixteen digits, each standing for its place in the row. */
  lemma SixteenDigits(r: nat)
    requires r < 16
    ensures DigitChar(r) == "0123456789abcdef"[r] && DigitValue("0123456789abcdef"[r]) == r
  {
  }

  /** Only digits below the base are used. */
  lemma {:induction false} ProperDigits(n: nat, b: nat)
    requires IsRadix(b)
    ensures forall k :: 0 <= k < |Digits(n, b)| ==> Digits(n, b)[k] in "0123456789abcdef"[..b]
  {
    var digits := "0123456789abcdef";
    SixteenDigits(n % b);
    assert digits[n % b] in digits[..b] by {
      assert digits[..b][n % b] == digits[n % b];
    }
    if n >= b {
      ProperDigits(n / b, b);
    }
  }

  lemma {:induction false} NoLeadingZero(n: nat, b: nat)
    requires IsRadix(b)
    ensures Digits(n, b)[0] == '0' <==> n == 0
    ensures Digits(n, b)[0] != '-'
  {
    if n >= b {
      NoLeadingZero(n / b, b);
    }
  }

  function Power(b: nat, k: nat): nat {
    if k == 0 then 1 else b * Power(b, k - 1)
  }

  lemma {:induction false} DigitCount(n: nat, b: nat, k: nat)
    requires IsRadix(b) && k >= 1 && n < Power(b, k)
    ensures |Digits(n, b)| <= k
  {
    assert Power(b, 1) == b * Power(b, 0) == b;
    if n >= b && k > 1 {
      if b == 10 {
        DigitCount(n / 10, 10, k - 1);
      } else {
        DigitCount(n / 16, 16, k - 1);
      }
    }
  }

  lemma Powers()
    ensures Power(10, 10) == 10_000_000_000 && Power(16, 8) == 0x1_0000_0000
  {
    assert Power(10, 5) == 100_000 && Power(16, 4) == 0x1_0000;
  }

  // ---------- what itoa writes ----------

  predicate IsInt(d: int) {
    -0x8000_0000 <= d < 0x8000_0000
  }

  predicate Signed(base: char) {
    base == 'i' || base == 'd'
  }

  function Radix(base: char, d: int): nat {
    if Signed(base) && d < 0 then 10 else if base == 'x' || base == 'p' then 16 else 10
  }

  /** The machine word that is taken apart; negation wraps, so that the least integer is its own. */
  function Word(base: char, d: int): nat {
    if Signed(base) && d < 0 then (-d) % 0x1_0000_0000 else d % 0x1_0000_0000
  }

  function Rendered(base: char, d: int): string {
    (if Signed(base) && d < 0 then "-" else "") + Digits(Word(base, d), Radix(base, d))
  }

  /**
   * The output reads as the number: for 'd' and 'i' in decimal with a sign, for 'x' and 'p' the
   * machine word in hexadecimal, for the others in decimal.  It has no leading zero, and with
   * its terminator fits 12 bytes.
   */
  lemma RoundTrip(base: char, d: int)
    requires IsInt(d)
    ensures var s := Rendered(base, d);
      if base == 'd' || base == 'i' then
        if d < 0 then s[0] == '-' && Value(s[1..], 10) == -d else Value(s, 10) == d
      else Value(s, if base == 'x' || base == 'p' then 16 else 10) == d % 0x1_0000_0000
    ensures var s := Rendered(base, d);
      && (s[0] == '0' ==> s == "0" && d == 0)
      && (s[0] == '-' <==> (base == 'd' || base == 'i') && d < 0)
      && var digits := if base == 'x' || base == 'p' then "0123456789abcdef" else "0123456789";
         forall k :: (if s[0] == '-' then 1 else 0) <= k < |s| ==> s[k] in digits
    ensures |Rendered(base, d)| + 1 <= 12
  {
    hide Digits, Value, Power;
    var w, b := Word(base, d), Radix(base, d);
    ProperDigits(w, b);
    assert "0123456789abcdef"[..10] == "0123456789" && "0123456789abcdef"[..16] == "0123456789abcdef";
    ValueOfDigits(w, b);
    NoLeadingZero(w, b);
    WordLength(w, b);
    WordOf(base, d);
    var s := Digits(w, b);
    assert ("-" + s)[1..] == s;
    assert "" + s == s;
    if w == 0 {
      ZeroDigits(b);
    }
  }

  lemma ZeroDigits(b: nat)
    requires IsRadix(b)
    ensures Digits(0, b) == "0"
  {
  }

  lemma WordOf(base: char, d: int)
    requires IsInt(d)
    ensures Word(base, d) < 0x1_0000_0000 && (Word(base, d) == 0 ==> d == 0)
    ensures Signed(base) ==> d == if d < 0 then 0 - Word(base, d) else Word(base, d)
  {
  }

  lemma WordLength(w: nat, b: nat)
    requires IsRadix(b) && w < 0x1_0000_0000
    ensures |Digits(w, b)| <= 10
  {
    Powers();
    if b == 10 {
      DigitCount(w, 10, 10);
    } else {
      DigitCount(w, 16, 8);
    }
  }

  // ---------- the buffer ----------

  function Backwards(n: nat, b: nat): (s: string)
    requires IsRadix(b)
    ensures s != ""
  {
    [DigitChar(n % b)] + if n / b == 0 then "" else Backwards(n / b, b)
  }

  function Reversed(s: string): (r: string)
    ensures |r| == |s|
  {
    if s == "" then "" else Reversed(s[1..]) + [s[0]]
  }

  lemma {:induction false} ReversedAt(s: string, k: nat)
    requires k < |s|
    ensures Reversed(s)[k] == s[|s| - 1 - k]
  {
    if k < |s| - 1 {
      ReversedAt(s[1..], k);
    }
  }

  lemma {:induction false} BackwardsIsReversed(n: nat, b: nat)
    requires IsRadix(b)
    ensures Reversed(Backwards(n, b)) == Digits(n, b)
  {
    var s := Backwards(n, b);
    if n / b == 0 {
      assert n < b && n % b == n;
      assert Reversed(s) == Reversed(s[1..]) + [s[0]];
    } else {
      assert n >= b;
      BackwardsIsReversed(n / b, b);
      assert s[1..] == Backwards(n / b, b);
    }
  }

  /** Divides down to 0, one digit a turn, and returns the end of what it wrote. */
  method WriteBackwards(buf: array<char>, start: nat, ud: nat, divisor: nat) returns (p: nat)
    requires IsRadix(divisor) && start + |Digits(ud, divisor)| <= buf.Length
    modifies buf
    ensures start < p == start + |Digits(ud, divisor)|
    ensures buf[start..p] == Backwards(ud, divisor)
    ensures forall k :: 0 <= k < start || p <= k < buf.Length ==> buf[k] == old(buf[k])
  {
    hide Backwards, Digits;
    BackwardsIsReversed(ud, divisor);
    ghost var all := Backwards(ud, divisor);
    var rest: nat := ud;
    p := start;
    while true
      invariant start <= p < buf.Length && p + |Backwards(rest, divisor)| == start + |all|
      invariant buf[start..p] + Backwards(rest, divisor) == all
      invariant forall k :: 0 <= k < start || p <= k < buf.Length ==> buf[k] == old(buf[k])
      decreases rest
    {
      OneDigit(rest, divisor);
      var remainder := rest % divisor;
      ghost var before := buf[start..p];
      Regroup(before, DigitChar(remainder), if rest / divisor == 0 then "" else Backwards(rest / divisor, divisor));
      buf[p] := DigitChar(remainder);
      p := p + 1;
      assert buf[start..p] == before + [DigitChar(remainder)];
      rest := rest / divisor;
      if rest == 0 {
        break;
      }
    }
  }

  lemma Regroup(a: string, c: char, b: string)
    ensures a + ([c] + b) == (a + [c]) + b
  {
  }

  lemma OneDigit(n: nat, b: nat)
    requires IsRadix(b)
    ensures 0 <= n % b < 16 && (n / b == 0 || 0 < n / b < n)
    ensures Backwards(n, b) == [DigitChar(n % b)] + if n / b == 0 then "" else Backwards(n / b, b)
  {
  }

  /** Swaps from both ends towards the middle. */
  method ReverseBetween(buf: array<char>, from: nat, to: nat)
    requires from < to <= buf.Length
    modifies buf
    ensures buf[from..to] == Reversed(old(buf[from..to]))
    ensures forall k :: 0 <= k < from || to <= k < buf.Length ==> buf[k] == old(buf[k])
  {
    hide Reversed;
    var p1, p2 := from, to - 1;
    while p1 < p2
      invariant from <= p1 <= p2 + 1 && p2 < to && p1 - from == to - 1 - p2
      invariant forall k :: from <= k < p1 || p2 < k < to ==> buf[k] == old(buf[from + to - 1 - k])
      invariant forall k :: p1 <= k <= p2 ==> buf[k] == old(buf[k])
      invariant forall k :: 0 <= k < from || to <= k < buf.Length ==> buf[k] == old(buf[k])
    {
      buf[p1], buf[p2] := buf[p2], buf[p1];
      p1, p2 := p1 + 1, p2 - 1;
    }
    ghost var was := old(buf[from..to]);
    assert forall k :: from <= k < to ==> buf[k] == old(buf[from + to - 1 - k]);
    forall k: nat | k < to - from ensures buf[from + k] == Reversed(was)[k] {
      ReversedAt(was, k);
      assert was[|was| - 1 - k] == old(buf[to - 1 - k]);
    }
  }

  method Convert(buf: array<char>, base: char, d: int)
    requires IsInt(d) && |Rendered(base, d)| + 1 <= buf.Length
    modifies buf
    ensures buf[..|Rendered(base, d)|] == Rendered(base, d) && buf[|Rendered(base, d)|] == '\0'
    ensures forall k :: |Rendered(base, d)| < k < buf.Length ==> buf[k] == old(buf[k])
  {
    hide Digits, Backwards, Reversed;
    var start := 0;
    var ud := d % 0x1_0000_0000;
    var divisor := 10;
    if (base == 'i' || base == 'd') && d < 0 {
      buf[0] := '-';
      start := 1;
      ud := (-d) % 0x1_0000_0000;
    } else if base == 'x' || base == 'p' {
      divisor := 16;
    }
    var p := WriteBackwards(buf, start, ud, divisor);
    buf[p] := '\0';
    assert buf[start..p] == Backwards(ud, divisor);
    ReverseBetween(buf, start, p);
    BackwardsIsReversed(ud, divisor);
    assert buf[..p] == buf[..start] + buf[start..p];
  }
}
