/** Number printing (`common/stdstr.c`). */
module Numerals {
  import opened Arith

  const NUL: char := 0 as char

  datatype Result = Success | InvalidArg | BufferTooSmall

  // ----- what the digits mean -----

  function DigitChar(d: nat): (c: char)
    requires d < 16
    ensures DigitValue(c) == d && c != NUL
  {
    if d < 10 then (0x30 + d) as char else (0x41 + d - 10) as char
  }

  function DigitValue(c: char): nat {
    if '0' <= c <= '9' then c as int - 0x30 else if 'A' <= c <= 'F' then c as int - 0x41 + 10 else 0
  }

  datatype Base = Decimal | Hex

  function Quot(n: nat, b: Base): (q: nat)
    ensures n > 0 ==> q < n
  {
    if b == Hex then n / 16 else n / 10
  }

  function Rem(n: nat, b: Base): (r: nat)
    ensures r < (if b == Hex then 16 else 10) && n == Times(Quot(n, b), b) + r && (Quot(n, b) == 0 ==> r == n)
  {
    if b == Hex then n % 16 else n % 10
  }

  function Times(n: nat, b: Base): nat { if b == Hex then n * 16 else n * 10 }

  /** The digits of `n`, the most significant first; none for 0. */
  ghost function Digits(n: nat, b: Base): seq<char> {
    if n == 0 then [] else Digits(Quot(n, b), b) + [DigitChar(Rem(n, b))]
  }

  /** What is printed. */
  ghost function Numeral(n: nat, b: Base): seq<char> {
    if n == 0 then ['0'] else Digits(n, b)
  }

  ghost function Parse(s: seq<char>, b: Base): nat {
    if s == [] then 0
    else (if b == Hex then 16 else 10) * Parse(s[..|s| - 1], b) + DigitValue(s[|s| - 1])
  }

  lemma {:induction false} DigitsParse(n: nat, b: Base)
    ensures Parse(Digits(n, b), b) == n
  {
    if n > 0 {
      DigitsParse(Quot(n, b), b);
      var s := Digits(Quot(n, b), b);
      assert (s + [DigitChar(Rem(n, b))])[..|s|] == s;
    }
  }

  lemma {:induction false} DigitsLead(n: nat, b: Base)
    requires n > 0
    ensures Digits(n, b) != [] && Digits(n, b)[0] != '0'
  {
    if Quot(n, b) > 0 { DigitsLead(Quot(n, b), b); }
  }

  /** Parsing a numeral gives the number back, and it has no leading zero. */
  lemma {:induction false} NumeralRoundTrip(n: nat, b: Base)
    ensures Parse(Numeral(n, b), b) == n
    ensures Numeral(n, b) != [] && (Numeral(n, b)[0] == '0' <==> n == 0)
    ensures n == 0 ==> |Numeral(n, b)| == 1
  {
    if n > 0 {
      DigitsParse(n, b);
      DigitsLead(n, b);
    } else {
      assert ['0'][..0] == [];
    }
  }

  predicate IsDigit(c: char, b: Base) { '0' <= c <= '9' || (b == Hex && 'A' <= c <= 'F') }

  lemma {:induction false} DigitsOnly(n: nat, b: Base)
    ensures forall i :: 0 <= i < |Digits(n, b)| ==> IsDigit(Digits(n, b)[i], b)
  {
    if n > 0 { DigitsOnly(Quot(n, b), b); }
  }

  /** Decimal numerals consist of '0' to '9', the others of those and 'A' to 'F'. */
  lemma {:induction false} NumeralDigits(n: nat, b: Base)
    ensures forall i :: 0 <= i < |Numeral(n, b)| ==> IsDigit(Numeral(n, b)[i], b)
  {
    DigitsOnly(n, b);
  }

  function Power(b: Base, k: nat): nat {
    if k == 0 then 1 else (if b == Hex then 16 else 10) * Power(b, k - 1)
  }

  /** A number has at most `k` digits exactly when it is below that power of the base. */
  lemma {:induction false} DigitsLength(n: nat, b: Base, k: nat)
    ensures |Digits(n, b)| <= k <==> n < Power(b, k)
  {
    if n > 0 {
      if k > 0 { DigitsLength(Quot(n, b), b, k - 1); }
    } else {
      PowerPositive(b, k);
    }
  }

  lemma {:induction false} PowerPositive(b: Base, k: nat)
    ensures Power(b, k) > 0
  {
    if k > 0 { PowerPositive(b, k - 1); }
  }

  /** 21 bytes hold every 64-bit number in decimal, 19 in hexadecimal with its prefix. */
  lemma {:induction false} EnoughBytes(n: nat)
    requires n < U64
    ensures |Numeral(n, Decimal)| + 1 <= 21 && |Numeral(n, Hex)| + 3 <= 19
  {
    PowerStep(Decimal, 0, 1, 0x186A0);
    PowerStep(Decimal, 5, 0x186A0, 10000000000);
    PowerStep(Decimal, 10, 10000000000, 1000000000000000);
    PowerStep(Decimal, 15, 1000000000000000, 100000000000000000000);
    PowerStep(Hex, 0, 1, 0x10_0000);
    PowerStep(Hex, 5, 0x10_0000, 0x100_0000_0000);
    PowerStep(Hex, 10, 0x100_0000_0000, 0x1000_0000_0000_0000);
    assert Power(Hex, 16) == Times(Power(Hex, 15), Hex);
    DigitsLength(n, Decimal, 20);
    DigitsLength(n, Hex, 16);
  }

  lemma {:induction false} PowerStep(b: Base, k: nat, p: nat, q: nat)
    requires Power(b, k) == p && q == Times(Times(Times(Times(Times(p, b), b), b), b), b)
    ensures Power(b, k + 5) == q
  {
    assert Power(b, k + 1) == Times(p, b);
    assert Power(b, k + 2) == Times(Power(b, k + 1), b);
    assert Power(b, k + 3) == Times(Power(b, k + 2), b);
    assert Power(b, k + 4) == Times(Power(b, k + 3), b);
  }

  // ----- the buffer -----

  ghost function Backwards(s: seq<char>): (r: seq<char>)
    ensures |r| == |s|
  {
    seq(|s|, k requires 0 <= k < |s| => s[|s| - 1 - k])
  }

  /** `b` is `a` with the ends of the range exchanged as far as `left`. */
  ghost predicate Turned(a: seq<char>, b: seq<char>, start: nat, end: nat, left: nat) {
    && |a| == |b| && start <= end <= |a| && start <= left
    && (forall k :: 0 <= k < start || end <= k < |a| ==> b[k] == a[k])
    && (forall k :: start <= k < left && k < end ==> b[k] == a[start + end - 1 - k] && b[start + end - 1 - k] == a[k])
    && (forall k :: left <= k < start + end - left ==> b[k] == a[k])
  }

  lemma {:induction false} TurnedAll(a: seq<char>, b: seq<char>, start: nat, end: nat, left: nat)
    requires Turned(a, b, start, end, left) && left + left + 1 >= start + end
    ensures b[..start] == a[..start] && b[end..] == a[end..] && b[start..end] == Backwards(a[start..end])
  {
    forall k | start <= k < end ensures b[k] == a[start + end - 1 - k] {
      if k >= left {
        var m := start + end - 1 - k;
        assert m == k || m < left;
      }
    }
  }

  /** `str_reverse`, on a range that is not empty at the start of the buffer: there `end_index - 1` wraps. */
  method Reverse(str: array<char>, start: nat, end: nat)
    requires start <= end <= str.Length && 0 < end
    modifies str
    ensures str[..start] == old(str[..start]) && str[end..] == old(str[end..])
    ensures str[start..end] == Backwards(old(str[start..end]))
  {
    var left, right := start, end - 1;
    ghost var was := str[..];
    while left <= right
      invariant start <= left && right == start + end - 1 - left && left <= right + 2
      invariant Turned(was, str[..], start, end, left)
      decreases right + 1 - left
    {
      if left == right { break; }
      var temp := str[left];
      str[left] := str[right];
      str[right] := temp;
      left, right := left + 1, right - 1;
    }
    TurnedAll(was, str[..], start, end, left);
    assert str[..][..start] == str[..start] && str[..][end..] == str[end..] && str[..][start..end] == str[start..end];
  }

  /** `str_len`. */
  method StrLen(str: array<char>) returns (len: nat)
    requires exists k :: 0 <= k < str.Length && str[k] == NUL
    ensures len < str.Length && str[len] == NUL && forall k :: 0 <= k < len ==> str[k] != NUL
  {
    len := 0;
    while str[len] != NUL
      invariant len < str.Length && forall k :: 0 <= k < len ==> str[k] != NUL
      decreases str.Length - len
    {
      len := len + 1;
    }
  }

  /** The loops that write the digits, the least significant first (lines 29-32, 89-92). */
  method WriteDigits(number: nat, b: Base, buffer: array<char>, from: nat, size: nat) returns (i: nat, rest: nat)
    requires from + 2 <= size <= buffer.Length
    modifies buffer
    ensures from <= i < size && (rest == 0 || i == size - 1)
    ensures Digits(number, b) == Digits(rest, b) + Backwards(buffer[from..i])
    ensures forall k :: 0 <= k < from || i <= k < buffer.Length ==> buffer[k] == old(buffer[k])
    ensures forall k :: from <= k < i ==> buffer[k] != NUL
  {
    i, rest := from, number;
    while i < size - 1 && rest > 0
      invariant from <= i < size
      invariant Digits(number, b) == Digits(rest, b) + Backwards(buffer[from..i])
      invariant forall k :: 0 <= k < from || i <= k < buffer.Length ==> buffer[k] == old(buffer[k])
      invariant forall k :: from <= k < i ==> buffer[k] != NUL
    {
      DigitsMove(number, rest, b, buffer[from..i]);
      ghost var more := buffer[from..i] + [DigitChar(Rem(rest, b))];
      buffer[i] := DigitChar(Rem(rest, b));
      i := i + 1;
      rest := Quot(rest, b);
      assert buffer[from..i] == more;
    }
  }

  lemma {:induction false} DigitsMove(number: nat, n: nat, b: Base, done: seq<char>)
    requires n > 0 && Digits(number, b) == Digits(n, b) + Backwards(done)
    ensures Digits(number, b) == Digits(Quot(n, b), b) + Backwards(done + [DigitChar(Rem(n, b))])
  {
    var c := DigitChar(Rem(n, b));
    assert Backwards(done + [c]) == [c] + Backwards(done);
  }

  /** The C string in the buffer. */
  ghost predicate HoldsString(buffer: array<char>, s: seq<char>)
    reads buffer
  {
    |s| < buffer.Length && buffer[..|s|] == s && buffer[|s|] == NUL
  }

  lemma {:induction false} Written(number: nat, b: Base, rest: nat, done: seq<char>)
    requires number > 0 && Digits(number, b) == Digits(rest, b) + Backwards(done)
    ensures if rest == 0 then Numeral(number, b) == Backwards(done) else |Numeral(number, b)| > |done|
  {
    if rest > 0 { DigitsLead(rest, b); }
  }

  /** Lines 34-42 and 94-102: the terminator, and the reversal when everything of `text` was written. */
  method Finish(buffer: array<char>, from: nat, size: nat, i: nat, rest: nat, ghost text: seq<char>) returns (r: Result)
    requires from < i < size <= buffer.Length && forall k :: 0 <= k < i ==> buffer[k] != NUL
    requires if rest == 0 then text == Backwards(buffer[from..i]) else i == size - 1 && |text| > i - from
    modifies buffer
    ensures r == if from + |text| + 1 <= size then Success else BufferTooSmall
    ensures r.Success? ==> HoldsString(buffer, old(buffer[..from]) + text)
    ensures buffer[size..] == old(buffer[size..])
  {
    buffer[i] := NUL;
    assert buffer[from..i] == old(buffer[from..i]);
    if rest > 0 { return BufferTooSmall; }
    var len := StrLen(buffer);
    assert len == i;
    Reverse(buffer, from, len);
    assert buffer[..i] == buffer[..from] + buffer[from..i];
    assert buffer[i..][0] == NUL;
    r := Success;
  }

  /** The digits of a positive number behind what the buffer holds up to `from`. */
  method Print(number: nat, b: Base, buffer: array<char>, from: nat, size: nat) returns (r: Result)
    requires from + 2 <= size <= buffer.Length && number > 0 && forall k :: 0 <= k < from ==> buffer[k] != NUL
    modifies buffer
    ensures r == if from + |Numeral(number, b)| + 1 <= size then Success else BufferTooSmall
    ensures r.Success? ==> HoldsString(buffer, old(buffer[..from]) + Numeral(number, b))
    ensures buffer[size..] == old(buffer[size..])
  {
    DigitsLead(number, b);
    var i, rest := WriteDigits(number, b, buffer, from, size);
    assert buffer[..from] == old(buffer[..from]);
    Written(number, b, rest, buffer[from..i]);
    r := Finish(buffer, from, size, i, rest, Numeral(number, b));
  }

  /** `ultoa`. */
  method Ultoa(number: nat, buffer: array?<char>, size: nat) returns (r: Result)
    requires buffer != null ==> size <= buffer.Length
    modifies if buffer == null then {} else {buffer}
    ensures r.InvalidArg? <==> buffer == null
    ensures buffer != null ==> (r.BufferTooSmall? <==> |Numeral(number, Decimal)| + 1 > size)
    ensures r.Success? ==> HoldsString(buffer, Numeral(number, Decimal))
    ensures buffer != null ==> buffer[size..] == old(buffer[size..])
  {
    if buffer == null { return InvalidArg; }
    NumeralRoundTrip(number, Decimal);
    if size < 2 { return BufferTooSmall; }
    if number == 0 {
      buffer[0] := '0';
      buffer[1] := NUL;
      return Success;
    }
    r := Print(number, Decimal, buffer, 0, size);
    assert old(buffer[..0]) + Numeral(number, Decimal) == Numeral(number, Decimal);
  }

  /** `ultox`. */
  method Ultox(number: nat, buffer: array?<char>, size: nat) returns (r: Result)
    requires buffer != null ==> size <= buffer.Length
    modifies if buffer == null then {} else {buffer}
    ensures r.InvalidArg? <==> buffer == null
    ensures buffer != null ==> (r.BufferTooSmall? <==> |Numeral(number, Hex)| + 3 > size)
    ensures r.Success? ==> HoldsString(buffer, "0x" + Numeral(number, Hex))
    ensures buffer != null ==> buffer[size..] == old(buffer[size..])
  {
    if buffer == null { return InvalidArg; }
    NumeralRoundTrip(number, Hex);
    if size < 4 { return BufferTooSmall; }
    buffer[0] := '0';
    buffer[1] := 'x';
    assert buffer[..2] == "0x";
    if number == 0 {
      buffer[2] := '0';
      buffer[3] := NUL;
      assert buffer[..3] == "0x" + ['0'];
      return Success;
    }
    r := Print(number, Hex, buffer, 2, size);
  }
}
