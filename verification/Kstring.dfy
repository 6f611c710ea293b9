/** strtok, strtoul, utoa and strcasecmp of Include/kstring.c as code over NUL-terminated buffers. */
module KstringCode {
  import opened Machine
  import opened Decimal
  import T = Tokens
  import D = FatDirectory

  const ERANGE: int := 34

  predicate Blank(c: byte) { c == 0x20 || c == 0x09 || c == 0x0A || c == 0x0D }

  /** The numeral that strtoul finds in a C string: behind blanks and one plus sign. */
  function NumeralStart(s: seq<byte>): (i: nat)
    ensures i <= |s|
  {
    var b := Blanks(s);
    if b < |s| && s[b] == 0x2B then b + 1 else b
  }

  function Blanks(s: seq<byte>): (i: nat)
    ensures i <= |s|
  {
    if s != [] && Blank(s[0]) then 1 + Blanks(s[1..]) else 0
  }

  lemma StartOf(s: seq<byte>)
    ensures var b := Blanks(s); NumeralStart(s) == if b < |s| && s[b] == 0x2B then b + 1 else b
  {
  }

  function Digits(s: seq<byte>): (n: nat)
    ensures n <= |s| && AllDigits(s[..n]) && (n < |s| ==> !IsDigit(s[n]))
  {
    if s != [] && IsDigit(s[0]) then
      var n := Digits(s[1..]);
      assert s[..1 + n] == [s[0]] + s[1..][..n];
      1 + n
    else 0
  }

  lemma {:induction false} BlanksEnd(b: seq<byte>, rest: seq<byte>)
    requires forall i | 0 <= i < |b| :: b[i] in [0x20, 0x09, 0x0A, 0x0D]
    requires rest != [] ==> rest[0] !in [0x20, 0x09, 0x0A, 0x0D]
    ensures Blanks(b + rest) == |b|
  {
    if b != [] {
      assert (b + rest)[1..] == b[1..] + rest;
      BlanksEnd(b[1..], rest);
    } else {
      assert b + rest == rest;
    }
  }

  /** Spaces, tabs, newlines and returns, then at most one plus sign, then the digits up to the first byte that is none. */
  lemma NumeralFound(b: seq<byte>, plus: bool, digits: seq<byte>, tail: seq<byte>)
    requires forall i | 0 <= i < |b| :: b[i] in [0x20, 0x09, 0x0A, 0x0D]
    requires forall i | 0 <= i < |digits| :: 48 <= digits[i] <= 57
    requires tail != [] ==> !(48 <= tail[0] <= 57)
    requires !plus && digits == [] && tail != [] ==> tail[0] !in [0x20, 0x09, 0x0A, 0x0D, 0x2B]
    ensures var front := b + if plus then [0x2B] else [];
            var s := front + digits + tail;
      NumeralStart(s) == |front| && s[|front|..] == digits + tail && Digits(s[|front|..]) == |digits| && s[|front|..][..|digits|] == digits
  {
    hide Blanks, Digits, NumeralStart;
    var sign: seq<byte> := if plus then [0x2B] else [];
    var s := b + sign + digits + tail;
    SignEnds(b, plus, digits + tail);
    assert s == b + sign + (digits + tail) && s[|b + sign|..] == digits + tail;
    assert (digits + tail)[..|digits|] == digits;
    DigitsEnd(digits + tail, |digits|);
  }

  lemma SignEnds(b: seq<byte>, plus: bool, rest: seq<byte>)
    requires forall i | 0 <= i < |b| :: b[i] in [0x20, 0x09, 0x0A, 0x0D]
    requires !plus && rest != [] ==> rest[0] !in [0x20, 0x09, 0x0A, 0x0D, 0x2B]
    ensures var sign: seq<byte> := if plus then [0x2B] else []; NumeralStart(b + sign + rest) == |b + sign|
  {
    hide Blanks;
    var sign: seq<byte> := if plus then [0x2B] else [];
    var more := sign + rest;
    assert b + sign + rest == b + more;
    BlanksEnd(b, more);
    assert more != [] ==> (b + more)[|b|] == more[0];
  }

  lemma {:induction false} DigitsEnd(s: seq<byte>, k: nat)
    requires k <= |s| && AllDigits(s[..k]) && (k < |s| ==> !IsDigit(s[k]))
    ensures Digits(s) == k
  {
    if k > 0 {
      assert s[..k][0] == s[0] && s[1..][..k - 1] == s[..k][1..];
      DigitsEnd(s[1..], k - 1);
    }
  }

  /** The numeral without digit k is in range, with it no more. */
  predicate FirstTooLarge(s: seq<byte>, k: nat)
    requires k < |s| && AllDigits(s)
  {
    Value(s[..k]) <= ULONG_MAX < Value(s[..k + 1])
  }

  /** The overflow check before digit k of n is exact. */
  lemma OneDigit(t: seq<byte>, n: nat, k: nat)
    requires k < n <= |t| && AllDigits(t[..n])
    ensures AllDigits(t[..k]) && AllDigits(t[..k + 1]) && IsDigit(t[k])
    ensures var digit := (t[k] as int) - 48;
      && Value(t[..k + 1]) == Value(t[..k]) * 10 + digit && Value(t[..k + 1]) <= Value(t[..n])
      && (Value(t[..k]) > (ULONG_MAX - digit) / 10 <==> Value(t[..k + 1]) > ULONG_MAX)
      && (Value(t[..k]) <= ULONG_MAX < Value(t[..k + 1]) ==> FirstTooLarge(t[..n], k))
  {
    hide Value;
    assert t[..n][..k] == t[..k] && t[..n][..k + 1] == t[..k + 1] && t[k] == t[..n][k];
    ValueStep(t, k);
    ValueGrows(t[..n], k + 1);
  }

  class Kstring {
    var kerrno: int
    var saved: Option<nat>  // the static cursor of strtok, an index into buffer
    var buffer: array<byte>

    constructor (buffer: array<byte>)
      ensures this.buffer == buffer && saved == None && kerrno == 0
    {
      this.buffer, saved, kerrno := buffer, None, 0;
    }

    /** strchr(delim, c) != NULL for a character other than the terminator */
    method Strchr(delim: seq<byte>, c: byte) returns (found: bool)
      ensures found <==> c in delim
    {
      for i := 0 to |delim|
        invariant c !in delim[..i]
      {
        if delim[i] == c { return true; }
      }
      found := false;
    }

    /** str stands for a non-NULL first argument; end is the index of the terminator. */
    method Strtok(str: array?<byte>, delim: seq<byte>, ghost end: nat) returns (token: Option<nat>)
      requires str == null ==> saved.None? || StringFrom(buffer[..], saved.value, end)
      requires str != null ==> StringFrom(str[..], 0, end)
      requires end < (if str != null then str.Length else buffer.Length)
      modifies this`saved, this`buffer, if str != null then str else buffer
      ensures buffer == if str != null then str else old(buffer)
      ensures (T.Memory(buffer[..], saved), token)
           == T.Strtok(old(if str != null then T.Memory(str[..], Some(0)) else T.Memory(buffer[..], saved)), end, delim)
    {
      if str != null { buffer := str; saved := Some(0); }
      if saved.None? { return None; }
      hide T.Skip, T.RunEnd;
      var start := SkipDelims(buffer, saved.value, delim, end);
      if buffer[start] == 0 { return None; }
      var stop := FindDelim(buffer, start, delim, end);
      if buffer[stop] != 0 {
        buffer[stop] := 0;
        saved := Some(stop + 1);
      } else {
        saved := None;
      }
      token := Some(start);
    }

    method SkipDelims(buf: array<byte>, from: nat, delim: seq<byte>, ghost end: nat) returns (start: nat)
      requires StringFrom(buf[..], from, end)
      ensures start == T.Skip(buf[..end], delim, from) && (buf[start] == 0 <==> start == end)
    {
      start := from;
      while buf[start] != 0
        invariant from <= start <= end && T.Skip(buf[..end], delim, start) == T.Skip(buf[..end], delim, from)
        decreases end - start
      {
        var isDelim := Strchr(delim, buf[start]);
        if !isDelim { break; }
        start := start + 1;
      }
    }

    method FindDelim(buf: array<byte>, from: nat, delim: seq<byte>, ghost end: nat) returns (stop: nat)
      requires StringFrom(buf[..], from, end)
      ensures stop == T.RunEnd(buf[..end], delim, from) && (buf[stop] == 0 <==> stop == end)
    {
      stop := from;
      while buf[stop] != 0
        invariant from <= stop <= end && T.RunEnd(buf[..end], delim, stop) == T.RunEnd(buf[..end], delim, from)
        decreases end - stop
      {
        var isDelim := Strchr(delim, buf[stop]);
        if isDelim { break; }
        stop := stop + 1;
      }
    }

    method SkipBlanks(s: seq<byte>) returns (end: nat)
      ensures end == Blanks(s)
    {
      end := 0;
      while end < |s| && Blank(s[end])
        invariant end <= |s| && end + Blanks(s[end..]) == Blanks(s)
      {
        assert s[end..][1..] == s[end + 1..];
        end := end + 1;
      }
    }

    /** Parses the C string s; end is the offset that endptr is set to. */
    method Strtoul(s: seq<byte>, base: int) returns (result: nat, end: nat)
      modifies this`kerrno
      ensures base != 10 ==> result == 0 && end == 0 && kerrno == old(kerrno)
      ensures base == 10 ==>
        var i := NumeralStart(s);
        var n := Digits(s[i..]);
        var v := Value(s[i..][..n]);
        && (v <= ULONG_MAX ==> result == v && end == i + n && kerrno == 0)
        && (v > ULONG_MAX ==> result == ULONG_MAX && kerrno == 34 && i <= end < i + n
                              && FirstTooLarge(s[i..][..n], end - i))
    {
      hide Value, AllDigits, Digits, Blanks, NumeralStart, FirstTooLarge;
      if base != 10 { return 0, 0; }
      end := SkipBlanks(s);
      if end < |s| && s[end] == 0x2B { end := end + 1; }
      assert end == NumeralStart(s) by { StartOf(s); }
      ghost var i, t := end, s[end..];
      ghost var n := Digits(t);
      result := 0;
      EmptyValue(t);
      while end < |s| && IsDigit(s[end])
        invariant i <= end <= i + n <= |s| && i == NumeralStart(s) && t == s[i..]
        invariant AllDigits(t[..end - i]) && result == Value(t[..end - i]) <= ULONG_MAX
      {
        assert s[end] == t[end - i];
        assert end - i < n;
        ghost var k := end - i;
        OneDigit(t, n, k);
        var digit := (s[end] as int) - 48;
        if result > (ULONG_MAX - digit) / 10 {
          kerrno := ERANGE;
          return ULONG_MAX, end;
        }
        result := result * 10 + digit;
        end := end + 1;
      }
      assert end < |s| ==> s[end] == t[end - i];
      DigitsEnd(t, end - i);
      kerrno := 0;
    }

    /** The first loop of utoa: the digits of a nonzero value, lowest first. */
    method LowDigits(value: nat, tmp: array<byte>) returns (i: nat)
      requires 0 < value < TWO64 && tmp.Length == 21
      modifies tmp
      ensures i == |Numeral(value)| <= 20 && Numeral(value) == Reverse(tmp[..i])
    {
      hide Numeral, Reverse;
      NumeralLength(value, 20, Pow10(20)) by { Pow10Of20(); }
      EmptyReverse(tmp[..0]);
      var v: nat := value;
      i := 0;
      ghost var all := Numeral(value);
      while v > 0 && i < 20
        invariant i <= |all| <= 20 && (v > 0 ==> i < 20)
        invariant all == (if v == 0 then [] else Numeral(v)) + Reverse(tmp[..i])
        decreases v
      {
        ghost var before := tmp[..i];
        tmp[i] := DigitByte(v % 10);
        assert tmp[..i + 1] == before + [DigitByte(v % 10)];
        DigitMoves(all, v, before);
        v := v / 10;
        i := i + 1;
      }
    }

    /** Writes the numeral of value and a terminator. */
    method Utoa(value: nat, out: array<byte>) returns (len: nat)
      requires value < TWO64 && out.Length > |Numeral(value)|
      modifies out
      ensures len == |Numeral(value)| <= 20 && out[..len] == Numeral(value) && out[len] == 0
      ensures forall x | len < x < out.Length :: out[x] == old(out[x])
    {
      if value == 0 {
        out[0], out[1] := 48, 0;
        return 1;
      }
      var tmp := new byte[21];
      var i := LowDigits(value, tmp);
      ghost var digits, all := tmp[..i], Numeral(value);
      hide Numeral, Reverse;
      var j := 0;
      while i > 0
        invariant i + j == |all| && tmp[..i + j] == digits
        invariant out[..j] == all[..j] && forall x | j <= x < out.Length :: out[x] == old(out[x])
      {
        i := i - 1;
        ReverseAt(digits, j);
        out[j] := tmp[i];
        j := j + 1;
      }
      out[j] := 0;
      len := j;
    }

    /** strcasecmp on two C strings */
    method Strcasecmp(a: seq<byte>, b: seq<byte>) returns (r: int)
      requires NoNul(a) && NoNul(b)
      ensures r == D.StrCaseCmp(a, b)
      ensures r == 0 <==> D.Fold(a) == D.Fold(b)
    {
      D.StrCaseCmpIsFoldEquality(a, b);
      var i := 0;
      while i < |a| && i < |b|
        invariant i <= |a| && i <= |b| && D.StrCaseCmp(a[i..], b[i..]) == D.StrCaseCmp(a, b)
      {
        var ca, cb := D.ToLower(a[i]), D.ToLower(b[i]);
        if ca != cb { return (ca as int) - (cb as int); }
        assert a[i..][1..] == a[i + 1..] && b[i..][1..] == b[i + 1..];
        i := i + 1;
      }
      r := (if i < |a| then D.ToLower(a[i]) as int else 0) - (if i < |b| then D.ToLower(b[i]) as int else 0);
    }
  }

  ghost predicate StringFrom(bytes: seq<byte>, start: nat, end: nat) {
    start <= end < |bytes| && bytes[end] == 0 && forall i | start <= i < end :: bytes[i] != 0
  }

  function Reverse(s: seq<byte>): (r: seq<byte>)
    ensures |r| == |s|
  {
    if s == [] then [] else [s[|s| - 1]] + Reverse(s[..|s| - 1])
  }

  lemma EmptyReverse(s: seq<byte>)
    requires s == []
    ensures Reverse(s) == []
  {
  }

  lemma EmptyValue(s: seq<byte>)
    ensures s[..0] == [] && AllDigits(s[..0]) && Value(s[..0]) == 0
  {
  }

  lemma NumeralStep(v: nat)
    requires v > 0
    ensures Numeral(v) == (if v / 10 == 0 then [] else Numeral(v / 10)) + [DigitByte(v % 10)]
  {
  }

  /** One more digit moves from the value to the reversed buffer. */
  lemma DigitMoves(all: seq<byte>, v: nat, low: seq<byte>)
    requires v > 0 && all == Numeral(v) + Reverse(low) && |all| <= 20
    ensures all == (if v / 10 == 0 then [] else Numeral(v / 10)) + Reverse(low + [DigitByte(v % 10)])
    ensures |low| + 1 <= |all| && (v / 10 > 0 ==> |low| + 1 < |all|)
  {
    hide Numeral, Reverse;
    var high: seq<byte> := if v / 10 == 0 then [] else Numeral(v / 10);
    var d := DigitByte(v % 10);
    NumeralStep(v);
    ReverseAppend(low, d);
    Shift(high, d, Reverse(low));
  }

  lemma Shift(high: seq<byte>, d: byte, low: seq<byte>)
    ensures high + [d] + low == high + ([d] + low) && |high + [d] + low| == |high| + 1 + |low|
  {
  }

  lemma ReverseAppend(s: seq<byte>, c: byte)
    ensures Reverse(s + [c]) == [c] + Reverse(s)
  {
    assert (s + [c])[..|s|] == s;
  }

  lemma {:induction false} ReverseAt(s: seq<byte>, j: nat)
    requires j < |s|
    ensures Reverse(s)[j] == s[|s| - 1 - j]
  {
    if j > 0 {
      ReverseAt(s[..|s| - 1], j - 1);
    }
  }

  lemma Pow10Of20()
    ensures TWO64 <= Pow10(20)
  {
    assert Pow10(5) == 100_000;
    assert Pow10(10) == 10_000_000_000;
    assert Pow10(15) == 1_000_000_000_000_000;
  }

  /** Reading back what utoa wrote: the numeral is found whole and denotes the value. */
  lemma NumeralReadsBack(v: nat)
    requires v <= ULONG_MAX
    ensures var s := Numeral(v);
      NumeralStart(s) == 0 && Digits(s[0..]) == |s| && Value(s[0..][..|s|]) == v
  {
    var s := Numeral(v);
    ValueOfNumeral(v);
    assert IsDigit(s[0]) && s[0..] == s && s[..|s|] == s;
    DigitsEnd(s, |s|);
  }

  /** strtoul inverts utoa for every 64-bit value. */
  method UtoaThenStrtoul(k: Kstring, value: nat, out: array<byte>) returns (result: nat, end: nat, len: nat)
    requires value < TWO64 && out.Length > |Numeral(value)|
    modifies k, out
    ensures result == value && end == len && len < out.Length && out[len] == 0 && k.kerrno == 0
  {
    len := k.Utoa(value, out);
    NumeralReadsBack(value);
    result, end := k.Strtoul(out[..len], 10);
  }
}
