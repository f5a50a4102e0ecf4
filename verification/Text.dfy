/** The string operations the parsers use, on Unicode scalar values. */
module Text {
  import opened Wrappers

  const INT64_LIMIT := 0x8000_0000_0000_0000

  /** unicode.IsSpace */
  predicate IsSpace(c: char) {
    var n := c as int;
    9 <= n <= 13 || n == 0x20 || n == 0x85 || n == 0xA0 || n == 0x1680 || 0x2000 <= n <= 0x200A ||
    n == 0x2028 || n == 0x2029 || n == 0x202F || n == 0x205F || n == 0x3000
  }

  function TrimLeft(s: string): (r: string)
    ensures |r| <= |s|
  {
    if s != "" && IsSpace(s[0]) then TrimLeft(s[1..]) else s
  }

  function TrimRight(s: string): (r: string)
    ensures |r| <= |s|
  {
    if s != "" && IsSpace(s[|s| - 1]) then TrimRight(s[..|s| - 1]) else s
  }

  /** strings.TrimSpace */
  function TrimSpace(s: string): (r: string)
    ensures |r| <= |s|
  {
    TrimRight(TrimLeft(s))
  }

  lemma TrimKeeps(s: string)
    requires s != "" && !IsSpace(s[0]) && !IsSpace(s[|s| - 1])
    ensures TrimSpace(s) == s
  {
  }

  predicate AllSpace(s: string) {
    forall i :: 0 <= i < |s| ==> IsSpace(s[i])
  }

  /** Nothing to trim. */
  predicate Trimmed(s: string) {
    s == "" || (!IsSpace(s[0]) && !IsSpace(s[|s| - 1]))
  }

  lemma {:induction false} TrimLeftDrops(pad: string, body: string)
    requires AllSpace(pad) && (body == "" || !IsSpace(body[0]))
    ensures TrimLeft(pad + body) == body
  {
    if pad == "" {
      assert pad + body == body;
    } else {
      assert IsSpace(pad[0]) && (pad + body)[1..] == pad[1..] + body;
      TrimLeftDrops(pad[1..], body);
    }
  }

  lemma {:induction false} TrimRightDrops(body: string, pad: string)
    requires AllSpace(pad) && (body == "" || !IsSpace(body[|body| - 1]))
    ensures TrimRight(body + pad) == body
  {
    if pad == "" {
      assert body + pad == body;
    } else {
      var n := |pad| - 1;
      assert IsSpace(pad[n]) && (body + pad)[|body| + n] == pad[n] && (body + pad)[..|body| + n] == body + pad[..n];
      TrimRightDrops(body, pad[..n]);
    }
  }

  /** White space around a text is dropped, and none inside it. */
  lemma TrimSpaceDrops(front: string, body: string, back: string)
    requires AllSpace(front) && AllSpace(back) && Trimmed(body)
    ensures TrimSpace(front + body + back) == body
  {
    assert front + body + back == front + (body + back);
    if body == "" {
      assert front + body + back == (front + back) + "" && AllSpace(front + back);
      TrimLeftDrops(front + back, "");
    } else {
      TrimLeftDrops(front, body + back);
      TrimRightDrops(body, back);
    }
  }

  /** Bytes in the UTF-8 form of one scalar value. */
  function Utf8Len(c: char): nat {
    var n := c as int;
    if n < 0x80 then 1 else if n < 0x800 then 2 else if n < 0x1_0000 then 3 else 4
  }

  /** len(s) */
  function ByteLen(s: string): (n: nat)
    ensures n >= |s|
  {
    if s == "" then 0 else Utf8Len(s[0]) + ByteLen(s[1..])
  }

  lemma {:induction false} ByteLenOfAscii(s: string)
    requires forall i :: 0 <= i < |s| ==> s[i] < '\U{80}'
    ensures ByteLen(s) == |s|
  {
    if s != "" {
      assert s[0] < '\U{80}';
      ByteLenOfAscii(s[1..]);
    }
  }

  /** Every character counts once, with one to four bytes. */
  lemma {:induction false} ByteLenAdds(a: string, c: char, b: string)
    ensures ByteLen("") == 0
    ensures var size := if c < '\U{80}' then 1 else if c < '\U{800}' then 2 else if c < '\U{10000}' then 3 else 4;
            ByteLen(a + [c] + b) == ByteLen(a) + size + ByteLen(b)
  {
    var s := a + [c] + b;
    if a == "" {
      assert s == [c] + b && s[1..] == b;
    } else {
      assert s[0] == a[0] && s[1..] == a[1..] + [c] + b;
      ByteLenAdds(a[1..], c, b);
    }
  }

  /** First position of `c`, or the length. */
  function Index(s: string, c: char): (i: nat)
    ensures i <= |s|
  {
    if s == "" || s[0] == c then 0 else 1 + Index(s[1..], c)
  }

  lemma {:induction false} IndexIsFirst(s: string, c: char, i: nat)
    requires i < |s| && s[i] == c && forall j :: 0 <= j < i ==> s[j] != c
    ensures Index(s, c) == i
  {
    if i > 0 {
      assert s[0] != c;
      IndexIsFirst(s[1..], c, i - 1);
    }
  }

  lemma IndexOfSeparator(a: string, c: char, b: string)
    requires forall i :: 0 <= i < |a| ==> a[i] != c
    ensures Index(a + [c] + b, c) == |a|
  {
    IndexIsFirst(a + [c] + b, c, |a|);
  }

  function CountChar(s: string, c: char): nat {
    if s == "" then 0 else (if s[0] == c then 1 else 0) + CountChar(s[1..], c)
  }

  lemma {:induction false} CountOfSeparator(a: string, c: char, b: string)
    ensures CountChar(a + b, c) == CountChar(a, c) + CountChar(b, c)
    ensures (forall i :: 0 <= i < |a| ==> a[i] != c) ==> CountChar(a, c) == 0
  {
    if a == "" {
      assert a + b == b;
    } else {
      assert (a + b)[0] == a[0] && (a + b)[1..] == a[1..] + b;
      CountOfSeparator(a[1..], c, b);
    }
  }

  predicate IsDigit(c: char) { '0' <= c <= '9' }

  predicate AllDigits(s: string) {
    forall i :: 0 <= i < |s| ==> IsDigit(s[i])
  }

  function DigitsValue(s: string): nat
    requires AllDigits(s)
  {
    if s == "" then 0
    else DigitsValue(s[..|s| - 1]) * 10 + (s[|s| - 1] as int - '0' as int)
  }

  /** strconv.ParseInt(s, 10, 64) */
  function ParseInt(s: string): (r: Option<int>)
    ensures r.Some? ==> -INT64_LIMIT <= r.value < INT64_LIMIT
  {
    if s == "" then None
    else
      var signed := s[0] == '+' || s[0] == '-';
      var digits := if signed then s[1..] else s;
      if digits == "" || !AllDigits(digits) then None
      else
        var n: int := DigitsValue(digits);
        if s[0] == '-' then (if n > INT64_LIMIT then None else Some(-n))
        else (if n >= INT64_LIMIT then None else Some(n))
  }

  /** A number is read from decimal digits with at most one sign before them, within 64 bits, and from nothing else. */
  lemma ParseIntReads(s: string, n: int)
    ensures ParseInt(s) == Some(n) <==>
            && -INT64_LIMIT <= n < INT64_LIMIT
            && exists digits ::
                 && digits != "" && AllDigits(digits)
                 && if n < 0 then s == "-" + digits && DigitsValue(digits) == -n
                    else DigitsValue(digits) == n && (s == digits || s == "+" + digits || (n == 0 && s == "-" + digits))
  {
    if ParseInt(s) == Some(n) {
      var digits := if s[0] == '+' || s[0] == '-' then s[1..] else s;
      assert s == digits || s == "+" + digits || s == "-" + digits;
      assert digits != "" && AllDigits(digits);
    }
    if digits :| digits != "" && AllDigits(digits) && (s == digits || s == "+" + digits || s == "-" + digits) {
      assert IsDigit(digits[0]);
      assert s != digits ==> s[1..] == digits;
    }
  }

  /** A number is read only from a text without white space around it. */
  lemma ParsedIsTrimmed(s: string)
    requires ParseInt(s).Some?
    ensures TrimSpace(s) == s
  {
    var digits := if s[0] == '+' || s[0] == '-' then s[1..] else s;
    assert IsDigit(digits[|digits| - 1]) && s[|s| - 1] == digits[|digits| - 1];
    assert s[0] == '+' || s[0] == '-' || IsDigit(digits[0]);
    TrimKeeps(s);
  }

  function Digit(d: int): char
    requires 0 <= d <= 9
  {
    '0' + d as char
  }

  lemma AppendDigit(head: string, d: int)
    requires AllDigits(head) && 0 <= d <= 9
    ensures AllDigits(head + [Digit(d)])
    ensures DigitsValue(head + [Digit(d)]) == DigitsValue(head) * 10 + d
  {
    var longer := head + [Digit(d)];
    assert longer[..|longer| - 1] == head;
  }

  /** strconv.FormatInt(n, 10) */
  function FormatNat(n: nat): (s: string)
    ensures s != "" && AllDigits(s)
    ensures DigitsValue(s) == n
  {
    if n < 10 then
      AppendDigit("", n);
      assert "" + [Digit(n)] == [Digit(n)];
      [Digit(n)]
    else
      var head := FormatNat(n / 10);
      AppendDigit(head, n % 10);
      head + [Digit(n % 10)]
  }

  lemma DigitsParse(s: string)
    requires s != "" && AllDigits(s) && DigitsValue(s) < INT64_LIMIT
    ensures ParseInt(s) == Some(DigitsValue(s)) && TrimSpace(s) == s
  {
    assert IsDigit(s[0]) && IsDigit(s[|s| - 1]);
    TrimKeeps(s);
  }

  lemma ParseOfFormat(n: nat)
    requires n < INT64_LIMIT
    ensures ParseInt(FormatNat(n)) == Some(n)
    ensures TrimSpace(FormatNat(n)) == FormatNat(n)
  {
    DigitsParse(FormatNat(n));
  }

  /** Two numbers with the same decimal form are equal. */
  lemma FormatIsInjective(m: nat, n: nat)
    requires FormatNat(m) == FormatNat(n)
    ensures m == n
  {
  }

  /** ASCII lower case, which is all that matters for matching an ASCII prefix without a `k` or an `i`. */
  function Lower(c: char): char {
    if 'A' <= c <= 'Z' then c + 32 as char else c
  }

  /** strings.HasPrefix(strings.ToLower(s), prefix) */
  predicate HasPrefixFold(s: string, prefix: string) {
    |prefix| <= |s| && forall i :: 0 <= i < |prefix| ==> Lower(s[i]) == prefix[i]
  }

  /** A prefix in small letters is found in small and in capital letters. */
  lemma PrefixInAnyCase(s: string, prefix: string)
    requires forall i :: 0 <= i < |prefix| ==> !('A' <= prefix[i] <= 'Z')
    ensures HasPrefixFold(s, prefix) <==>
            |prefix| <= |s| && forall i :: 0 <= i < |prefix| ==>
              s[i] == prefix[i] || ('a' <= prefix[i] <= 'z' && s[i] == prefix[i] - 32 as char)
  {
  }

  lemma {:induction false} FormatLength(n: nat, digits: nat)
    requires n < Pow10(digits) && digits > 0
    ensures |FormatNat(n)| <= digits
  {
    if n >= 10 {
      FormatLength(n / 10, digits - 1);
    }
  }

  function Pow10(k: nat): nat {
    if k == 0 then 1 else 10 * Pow10(k - 1)
  }
}
