/** The growing string buffer of src/strbuf.c. */
module StrBuf {
  import opened Growth
  import opened Wrappers

  const NUL: char := '\0'

  class Buffer {
    var buf: array<char>
    var length: nat
    var capacity: nat

    // capacity 0 stands for the shared one-byte default buffer; otherwise buf is a C string of its own
    ghost predicate Valid()
      reads this, buf
    {
      if capacity == 0 then length == 0 && buf.Length == 1
      else length < capacity == buf.Length && buf[length] == NUL
    }

    function Contents(): (r: string)
      requires Valid()
      reads this, buf
    {
      buf[..length]
    }

    constructor ()
      ensures Valid() && Contents() == "" && fresh(buf)
    {
      buf := new char[1];
      length, capacity := 0, 0;
    }

    function SizeAvail(): (r: nat)
      requires Valid()
      reads this, buf
    {
      if capacity == 0 then 0 else capacity - length - 1
    }

    method Grow(request: nat)
      requires Valid()
      modifies this, buf
      ensures Valid() && (buf == old(buf) || fresh(buf)) && length == old(length)
      ensures capacity > 0 && SizeAvail() >= request
      ensures Contents() == old(Contents())
    {
      var capacity' := Grown(length + request + 1, capacity);
      if capacity' != capacity {
        var buf' := new char[capacity'];
        forall k | 0 <= k < length {
          buf'[k] := buf[k];
        }
        buf'[length] := if capacity == 0 then NUL else buf[length];
        buf, capacity := buf', capacity';
      }
    }

    method PutChar(c: char)
      requires Valid()
      modifies this, buf
      ensures Valid() && (buf == old(buf) || fresh(buf))
      ensures Contents() == old(Contents()) + [c]
    {
      if SizeAvail() == 0 {
        Grow(1);
      }
      buf[length] := c;
      length := length + 1;
      buf[length] := NUL;
    }

    // strbuf_write; strbuf_concat is this on a whole string
    method Write(str: string)
      requires Valid()
      modifies this, buf
      ensures Valid() && (buf == old(buf) || fresh(buf))
      ensures Contents() == old(Contents()) + str
    {
      if |str| > SizeAvail() {
        Grow(|str|);
      }
      ghost var before := Contents();
      forall k | 0 <= k < |str| {
        buf[length + k] := str[k];
      }
      assert buf[..length] == before && buf[length..length + |str|] == str;
      length := length + |str|;
      assert buf[..length] == before + str;
      if capacity != 0 {
        buf[length] := NUL;
      }
    }

    // strbuf_puts: the string and a newline
    method Puts(str: string)
      requires Valid()
      modifies this, buf
      ensures Valid() && (buf == old(buf) || fresh(buf))
      ensures Contents() == old(Contents()) + str + "\n"
    {
      var size := |str| + 1;
      if size > SizeAvail() {
        Grow(size);
      }
      ghost var before := Contents();
      forall k | 0 <= k < |str| {
        buf[length + k] := str[k];
      }
      buf[length + |str|] := '\n';
      length := length + size;
      buf[length] := NUL;
      assert buf[..length] == before + str + ['\n'];
    }

    method Detach() returns (copy: string)
      requires Valid()
      modifies this, buf
      ensures Valid() && buf == old(buf) && capacity == old(capacity)
      ensures copy == old(Contents()) && Contents() == ""
    {
      copy := buf[..length];
      buf[0] := NUL;
      length := 0;
    }
  }

  /* ---------- predicates on strings ---------- */

  method StartsWith(str: string, prefix: string) returns (r: bool)
    ensures r <==> prefix <= str
  {
    var i := 0;
    while i < |prefix|
      invariant i <= |prefix| && i <= |str| && prefix[..i] == str[..i]
    {
      // the byte at |str| is the terminator, which no character of prefix equals
      if i == |str| || str[i] != prefix[i] {
        return false;
      }
      i := i + 1;
    }
    return true;
  }

  // isspace in the C locale
  predicate IsSpace(c: char) {
    c == ' ' || '\t' <= c <= '\r'
  }

  predicate AllSpace(s: string) {
    forall i :: 0 <= i < |s| ==> IsSpace(s[i])
  }

  method IsBlankStr(str0: string) returns (r: bool)
    ensures r <==> AllSpace(str0)
  {
    if |str0| == 0 {
      return true;
    }
    var str := 0;
    while str != |str0| && IsSpace(str0[str])
      invariant 0 <= str <= |str0| && forall i :: 0 <= i < str ==> IsSpace(str0[i])
    {
      str := str + 1;
    }
    return str == |str0|;
  }

  /* ---------- unsigned numbers ---------- */

  const UINT_MAX: nat := 0xFFFF_FFFF
  const ULONG_MAX: nat := 0xFFFF_FFFF_FFFF_FFFF

  predicate IsDigit(c: char) {
    '0' <= c <= '9'
  }

  function LeadingSpaces(s: string): (n: nat)
    ensures n <= |s| && (forall i :: 0 <= i < n ==> IsSpace(s[i])) && (n < |s| ==> !IsSpace(s[n]))
  {
    if s == "" || !IsSpace(s[0]) then 0 else 1 + LeadingSpaces(s[1..])
  }

  function LeadingDigits(s: string): (n: nat)
    ensures n <= |s| && (forall i :: 0 <= i < n ==> IsDigit(s[i])) && (n < |s| ==> !IsDigit(s[n]))
  {
    if s == "" || !IsDigit(s[0]) then 0 else 1 + LeadingDigits(s[1..])
  }

  function DecimalValue(s: string): nat
    requires forall i :: 0 <= i < |s| ==> IsDigit(s[i])
  {
    if s == "" then 0
    else
      assert IsDigit(s[|s| - 1]);
      10 * DecimalValue(s[..|s| - 1]) + (s[|s| - 1] as int - '0' as int)
  }

  function SignOf(s: string): (sign: string)
    ensures sign <= s && sign in ["", "+", "-"]
    ensures sign == "" && s != "" ==> s[0] != '+' && s[0] != '-'
  {
    if s == "" then "" else if s[0] == '+' then "+" else if s[0] == '-' then "-" else ""
  }

  // The number of a sign and digits worth v in a 64-bit unsigned long, where a negated number wraps around, if it fits
  // an unsigned
  function SignedValue(sign: string, v: nat): (r: Option<nat>)
    ensures r.Some? ==> r.value <= UINT_MAX
  {
    if v > ULONG_MAX then None
    else
      var res := if sign == "-" then (ULONG_MAX + 1 - v) % (ULONG_MAX + 1) else v;
      if res > UINT_MAX then None else Some(res)
  }

  // strtou: strtoul in base 10, on a string that does not begin with a hyphen. White space and a sign may still come
  // first, nothing may come last, and the empty string is read as 0.
  function Strtou(str: string): (r: Option<nat>)
    ensures r.Some? ==> r.value <= UINT_MAX
  {
    if str == "" then Some(0)
    else if str[0] == '-' then None
    else
      var body := str[LeadingSpaces(str)..];
      var rest := body[|SignOf(body)|..];
      if rest == "" || LeadingDigits(rest) < |rest| then None else SignedValue(SignOf(body), DecimalValue(rest))
  }

  // The usual way to write a number
  function Decimal(n: nat): (s: string)
    ensures s != "" && forall i :: 0 <= i < |s| ==> IsDigit(s[i])
  {
    if n < 10 then [('0' as int + n) as char] else Decimal(n / 10) + [('0' as int + n % 10) as char]
  }

  lemma {:induction false} ValueOfDecimal(n: nat)
    ensures DecimalValue(Decimal(n)) == n
  {
    if n < 10 {
      assert Decimal(n)[..0] == "";
    } else {
      ValueOfDecimal(n / 10);
      assert Decimal(n)[..|Decimal(n)| - 1] == Decimal(n / 10);
    }
  }

  lemma {:induction false} SpacesFirst(sp: string, s: string)
    requires (forall i :: 0 <= i < |sp| ==> IsSpace(sp[i])) && (s != "" ==> !IsSpace(s[0]))
    ensures LeadingSpaces(sp + s) == |sp|
  {
    if sp == "" {
      assert sp + s == s;
    } else {
      SpacesFirst(sp[1..], s);
      assert (sp + s)[1..] == sp[1..] + s;
    }
  }

  lemma {:induction false} DigitsFirst(d: string, tail: string)
    requires (forall i :: 0 <= i < |d| ==> IsDigit(d[i])) && (tail != "" ==> !IsDigit(tail[0]))
    ensures LeadingDigits(d + tail) == |d|
  {
    if d == "" {
      assert d + tail == tail;
    } else {
      DigitsFirst(d[1..], tail);
      assert (d + tail)[1..] == d[1..] + tail;
    }
  }

  lemma SignFirst(sign: string, rest: string)
    requires sign in ["", "+", "-"] && (sign == "" && rest != "" ==> rest[0] != '+' && rest[0] != '-')
    ensures SignOf(sign + rest) == sign && (sign + rest)[|sign|..] == rest
  {
    assert sign == "" ==> sign + rest == rest;
  }

  // What strtou makes of any string: it is white space, a sign or none, digits, and a rest that begins with no digit
  lemma StrtouMeans(sp: string, sign: string, d: string, tail: string)
    requires (forall i :: 0 <= i < |sp| ==> IsSpace(sp[i])) && sign in ["", "+", "-"]
    requires (forall i :: 0 <= i < |d| ==> IsDigit(d[i])) && (tail != "" ==> !IsDigit(tail[0]))
    requires sign == "" && d == "" && tail != "" ==> !IsSpace(tail[0]) && tail[0] != '+' && tail[0] != '-'
    ensures var s := sp + (sign + (d + tail));
      Strtou(s) ==
        if s == "" then Some(0)
        else if s[0] == '-' || d == "" || tail != "" then None
        else SignedValue(sign, DecimalValue(d))
  {
    hide LeadingSpaces, LeadingDigits, DecimalValue, SignedValue, SignOf;
    var rest := d + tail;
    RestBegins(d, tail);
    BodyBegins(sign, rest);
    SpacesFirst(sp, sign + rest);
    DigitsFirst(d, tail);
    SignFirst(sign, rest);
    assert (sp + (sign + rest))[|sp|..] == sign + rest;
    assert tail == "" ==> rest == d;
  }

  lemma RestBegins(d: string, tail: string)
    requires forall i :: 0 <= i < |d| ==> IsDigit(d[i])
    ensures d + tail != "" ==> (d + tail)[0] == if d == "" then tail[0] else d[0]
    ensures d != "" ==> IsDigit(d[0]) && !IsSpace(d[0]) && d[0] != '+' && d[0] != '-'
  {
  }

  lemma BodyBegins(sign: string, rest: string)
    requires sign in ["", "+", "-"]
    ensures sign + rest != "" ==> (sign + rest)[0] == if sign == "" then rest[0] else sign[0]
    ensures sign != "" ==> (sign[0] == '+' || sign[0] == '-') && !IsSpace(sign[0])
  {
  }

  lemma SplitAt(s: string, k: nat)
    requires k <= |s|
    ensures s == s[..k] + s[k..]
    ensures k < |s| ==> s[k..][0] == s[k]
    ensures forall p: string :: p <= s && |p| == k ==> s[..k] == p
  {
  }

  // and every string is of this kind
  lemma EveryStringSplits(s: string) returns (sp: string, sign: string, d: string, tail: string)
    ensures s == sp + (sign + (d + tail)) && sign in ["", "+", "-"]
    ensures (forall i :: 0 <= i < |sp| ==> IsSpace(sp[i])) && (forall i :: 0 <= i < |d| ==> IsDigit(d[i]))
    ensures tail != "" ==> !IsDigit(tail[0])
    ensures sign == "" && d == "" && tail != "" ==> !IsSpace(tail[0]) && tail[0] != '+' && tail[0] != '-'
  {
    hide SignOf, LeadingSpaces, LeadingDigits;
    var k := LeadingSpaces(s);
    var body := s[k..];
    sp, sign := s[..k], SignOf(body);
    var rest := body[|sign|..];
    var n := LeadingDigits(rest);
    d, tail := rest[..n], rest[n..];
    SplitAt(s, k);
    SplitAt(body, |sign|);
    SplitAt(rest, n);
  }

  // The values, spelled out: up to 2^32 - 1, and behind a minus from 2^64 - 2^32 + 1 up to 2^64 - 1, and 0
  lemma SignedValueMeans(v: nat)
    ensures SignedValue("", v) == if v <= 0xFFFF_FFFF then Some(v) else None
    ensures SignedValue("+", v) == SignedValue("", v)
    ensures SignedValue("-", v) ==
      if v == 0 then Some(0)
      else if 0xFFFF_FFFF_0000_0001 <= v <= 0xFFFF_FFFF_FFFF_FFFF then Some(0x1_0000_0000_0000_0000 - v)
      else None
  {
  }

  // strtou reads back every unsigned number as it is usually written
  lemma StrtouOfDecimal(n: nat)
    requires n <= UINT_MAX
    ensures Strtou(Decimal(n)) == Some(n)
  {
    hide Decimal, Strtou;
    var d := Decimal(n);
    StrtouMeans("", "", d, "");
    assert IsDigit(d[0]) && "" + ("" + (d + "")) == d;
    ValueOfDecimal(n);
  }

  // The white space of the C locale, character by character
  lemma SpacesMean(c: char)
    ensures IsSpace(c) <==> c in {' ', '\t', '\n', '\U{0B}', '\U{0C}', '\r'}
    ensures IsDigit(c) <==> c in "0123456789"
  {
    var ds := "0123456789";
    assert ds[0] == '0' && ds[1] == '1' && ds[2] == '2' && ds[3] == '3' && ds[4] == '4' && ds[5] == '5';
    assert ds[6] == '6' && ds[7] == '7' && ds[8] == '8' && ds[9] == '9';
    if IsDigit(c) {
      assert ds[c as int - '0' as int] == c;
    }
  }

  // Decimal digits, the first one the highest
  lemma DecimalDigits(d: string, c: char)
    requires (forall i :: 0 <= i < |d| ==> IsDigit(d[i])) && IsDigit(c)
    ensures DecimalValue("") == 0
    ensures DecimalValue(d + [c]) == 10 * DecimalValue(d) + (c as int - '0' as int)
  {
    assert (d + [c])[..|d|] == d;
  }
}
