/**
 * The text side of the configuration file: blank space, decimal numbers, truth values and one `key = value` line,
 * after src/utils/string_utils.c. A C string is a sequence of characters up to its terminator.
 */
module ConfigText {
  import opened Outcomes

  const KEY_SIZE: nat := 256
  const VALUE_SIZE: nat := 512

  /** `isspace` in the C locale: the blank and the characters 9 to 13. */
  predicate IsSpace(c: char) {
    c == ' ' || 9 <= c as int <= 13
  }

  predicate Blank(s: string) {
    forall i :: 0 <= i < |s| ==> IsSpace(s[i])
  }

  /** No blank space at either end. */
  predicate Trimmed(s: string) {
    s == [] || (!IsSpace(s[0]) && !IsSpace(s[|s| - 1]))
  }

  function SkipSpace(s: string): string {
    if s != [] && IsSpace(s[0]) then SkipSpace(s[1..]) else s
  }

  function DropTail(s: string): string {
    if s != [] && IsSpace(s[|s| - 1]) then DropTail(s[..|s| - 1]) else s
  }

  lemma {:induction false} SkipSpaceOf(a: string, s: string)
    requires Blank(a) && (s == [] || !IsSpace(s[0]))
    ensures SkipSpace(a + s) == s
  {
    if a == [] {
      assert a + s == s;
    } else {
      SkipSpaceOf(a[1..], s);
      assert (a + s)[1..] == a[1..] + s;
    }
  }

  lemma {:induction false} DropTailOf(s: string, d: string)
    requires Blank(d) && (s == [] || !IsSpace(s[|s| - 1]))
    ensures DropTail(s + d) == s
  {
    if d == [] {
      assert s + d == s;
    } else {
      DropTailOf(s, d[..|d| - 1]);
      assert (s + d)[..|s + d| - 1] == s + d[..|d| - 1];
    }
  }

  lemma {:induction false} SkipSpaceSplits(s: string) returns (a: string)
    ensures Blank(a) && s == a + SkipSpace(s) && (SkipSpace(s) == [] || !IsSpace(SkipSpace(s)[0]))
  {
    if s != [] && IsSpace(s[0]) {
      var b := SkipSpaceSplits(s[1..]);
      a := [s[0]] + b;
      assert s == [s[0]] + s[1..];
    } else {
      a := [];
    }
  }

  lemma {:induction false} DropTailSplits(s: string) returns (d: string)
    ensures Blank(d) && s == DropTail(s) + d && (DropTail(s) == [] || !IsSpace(DropTail(s)[|DropTail(s)| - 1]))
  {
    if s != [] && IsSpace(s[|s| - 1]) {
      var b := DropTailSplits(s[..|s| - 1]);
      d := b + [s[|s| - 1]];
      assert s == s[..|s| - 1] + [s[|s| - 1]];
    } else {
      d := [];
    }
  }

  // ---------------------------------------------------------------- one line

  /** The position of the first `c`, or the length. */
  function IndexOf(s: string, c: char): (i: nat)
    ensures i <= |s| && (i < |s| ==> s[i] == c) && c !in s[..i]
  {
    if s == [] || s[0] == c then 0 else
      var i := 1 + IndexOf(s[1..], c);
      assert s[..i] == [s[0]] + s[1..][..i - 1];
      i
  }

  predicate GoodKey(k: string) {
    && Trimmed(k) && '=' !in k && (k == [] || k[0] != '#') && |k| < KEY_SIZE
  }

  predicate GoodValue(v: string) {
    Trimmed(v) && |v| < VALUE_SIZE
  }

  /** What a line says. */
  function Pair(line: string): Option<(string, string)> {
    var l := SkipSpace(line);
    if l == [] || l[0] == '#' then None
    else
      var e := IndexOf(l, '=');
      if e == |l| then None
      else
        var key := DropTail(l[..e]);
        var value := DropTail(SkipSpace(l[e + 1..]));
        if |key| >= KEY_SIZE || |value| >= VALUE_SIZE then None else Some((key, value))
  }

  /** Blank space around key and value does not matter. */
  lemma PairOf(a: string, k: string, b: string, c: string, v: string, d: string)
    requires Blank(a) && Blank(b) && Blank(c) && Blank(d) && GoodKey(k) && GoodValue(v)
    ensures Pair(a + k + b + "=" + c + v + d) == Some((k, v))
  {
    hide SkipSpace, DropTail, IndexOf;
    var line, right := a + k + b + "=" + c + v + d, c + v + d;
    var kb := if k == [] then [] else k + b;
    var l := kb + "=" + right;
    if k == [] {
      SkipSpaceOf(a + b, l);
      assert line == (a + b) + l;
    } else {
      SkipSpaceOf(a, l);
      assert line == a + l;
    }
    assert l[|kb|] == '=';
    assert '=' !in kb;
    FirstAt(l, '=', |kb|);
    assert l[..|kb|] == kb && l[|kb| + 1..] == right;
    DropTailOf(k, if k == [] then [] else b);
    assert kb == k + if k == [] then [] else b;
    TrimOf(c, v, d);
  }

  lemma FirstAt(s: string, c: char, i: nat)
    requires i < |s| && s[i] == c && c !in s[..i]
    ensures IndexOf(s, c) == i
  {
    var j := IndexOf(s, c);
    forall k | 0 <= k < j
      ensures s[k] != c
    {
      assert s[k] in s[..j];
    }
    forall k | 0 <= k < i
      ensures s[k] != c
    {
      assert s[k] in s[..i];
    }
  }

  lemma TrimOf(c: string, v: string, d: string)
    requires Blank(c) && Blank(d) && Trimmed(v)
    ensures DropTail(SkipSpace(c + v + d)) == v
  {
    hide SkipSpace, DropTail;
    if v == [] {
      SkipSpaceOf(c + d, []);
      assert c + v + d == (c + d) + [];
      DropTailOf([], []);
      assert SkipSpace(c + v + d) == [] == [] + v;
    } else {
      SkipSpaceOf(c, v + d);
      assert c + v + d == c + (v + d);
      DropTailOf(v, d);
    }
  }

  /** Whatever is read off a line stands on it with only blank space around it: the other direction. */
  lemma PairSplits(line: string) returns (a: string, b: string, c: string, d: string)
    requires Pair(line).Some?
    ensures Blank(a) && Blank(b) && Blank(c) && Blank(d)
    ensures var (k, v) := Pair(line).value; GoodKey(k) && GoodValue(v) && line == a + k + b + "=" + c + v + d
  {
    hide SkipSpace, DropTail, IndexOf;
    var (k, v) := Pair(line).value;
    a := SkipSpaceSplits(line);
    var l := SkipSpace(line);
    var e := IndexOf(l, '=');
    b := DropTailSplits(l[..e]);
    c := SkipSpaceSplits(l[e + 1..]);
    d := DropTailSplits(SkipSpace(l[e + 1..]));
    assert l == l[..e] + "=" + l[e + 1..];
    KeyIsGood(l, e, k, b);
    var rest := SkipSpace(l[e + 1..]);
    assert rest == v + d;
    assert v != [] ==> v[0] == rest[0];
    Regroup(a, k, b, c, v, d);
  }

  lemma Regroup(a: string, k: string, b: string, c: string, v: string, d: string)
    ensures a + ((k + b) + "=" + (c + (v + d))) == a + k + b + "=" + c + v + d
  {
  }

  lemma KeyIsGood(l: string, e: nat, k: string, b: string)
    requires l != [] && !IsSpace(l[0]) && l[0] != '#' && e <= |l| && '=' !in l[..e] && l[..e] == k + b
    requires |k| < KEY_SIZE && (k == [] || !IsSpace(k[|k| - 1]))
    ensures GoodKey(k)
  {
    if k != [] {
      assert k[0] == l[..e][0] == l[0];
    }
    forall c <- k
      ensures c != '='
    {
      assert c in k + b;
    }
  }

  /** `xsan_parse_config_line`. */
  method ParseConfigLine(line: string) returns (r: Option<(string, string)>)
    ensures r == Pair(line)
  {
    var start := 0;
    while start < |line| && IsSpace(line[start])
      invariant start <= |line| && SkipSpace(line[start..]) == SkipSpace(line)
    {
      start := start + 1;
    }
    var l := line[start..];
    if l == [] || l[0] == '#' {
      return None;
    }
    var equal := Find(l, '=');
    if equal == |l| {
      return None;
    }
    var keyEnd := TrimEnd(l[..equal]);
    if keyEnd >= KEY_SIZE {
      return None;
    }
    var rest := l[equal + 1..];
    var valueStart := 0;
    while valueStart < |rest| && IsSpace(rest[valueStart])
      invariant valueStart <= |rest| && SkipSpace(rest[valueStart..]) == SkipSpace(rest)
    {
      valueStart := valueStart + 1;
    }
    var valueEnd := TrimEnd(rest[valueStart..]);
    if valueEnd >= VALUE_SIZE {
      return None;
    }
    return Some((l[..equal][..keyEnd], rest[valueStart..][..valueEnd]));
  }

  /** Walks back over trailing blank space. */
  method TrimEnd(s: string) returns (n: nat)
    ensures n <= |s| && s[..n] == DropTail(s)
  {
    n := |s|;
    assert s[..n] == s;
    while n > 0 && IsSpace(s[n - 1])
      invariant n <= |s| && DropTail(s[..n]) == DropTail(s)
    {
      assert s[..n][..n - 1] == s[..n - 1];
      n := n - 1;
    }
  }

  /** `strchr`. */
  method Find(s: string, c: char) returns (i: nat)
    ensures i == IndexOf(s, c)
  {
    i := 0;
    while i < |s| && s[i] != c
      invariant i <= |s| && c !in s[..i]
    {
      i := i + 1;
    }
    if i < |s| {
      FirstAt(s, c, i);
    } else {
      assert s[..i] == s;
    }
  }

  // ---------------------------------------------------------------- numbers and truth values

  predicate IsDigit(c: char) {
    '0' <= c <= '9'
  }

  predicate AllDigits(s: string) {
    forall i :: 0 <= i < |s| ==> IsDigit(s[i])
  }

  function Digit(n: int): char
    requires 0 <= n < 10
  {
    "0123456789"[n]
  }

  /** The decimal digits of a number, as `%ld` prints them. */
  function Digits(n: nat): (s: string)
    ensures s != [] && AllDigits(s)
  {
    if n < 10 then [Digit(n)] else Digits(n / 10) + [Digit(n % 10)]
  }

  function Decimal(n: int): string {
    if n < 0 then "-" + Digits(-n) else Digits(n)
  }

  function Number(s: string): nat
    requires AllDigits(s)
  {
    if s == [] then 0 else Number(s[..|s| - 1]) * 10 + (s[|s| - 1] as int - '0' as int)
  }

  lemma {:induction false} NumberOfDigits(n: nat)
    ensures Number(Digits(n)) == n
  {
    if n >= 10 {
      NumberOfDigits(n / 10);
      assert Digits(n)[..|Digits(n)| - 1] == Digits(n / 10);
    } else {
      assert Digits(n)[..0] == [];
    }
  }

  const LONG_MIN: int := -0x8000_0000_0000_0000
  const LONG_MAX: int := 0x7fff_ffff_ffff_ffff
  const INT_MIN: int := -0x8000_0000
  const INT_MAX: int := 0x7fff_ffff

  /** `xsan_str_to_long`: `strtol` in base 10 must use the whole string and stay in range. */
  function ScanLong(s: string): (r: Option<int>)
    ensures r.Some? ==> LONG_MIN <= r.value <= LONG_MAX
  {
    var t := SkipSpace(s);
    var negative := t != [] && t[0] == '-';
    var digits := if t != [] && (t[0] == '-' || t[0] == '+') then t[1..] else t;
    if digits == [] || !AllDigits(digits) then None
    else
      var m: int := Number(digits);
      var n := if negative then -m else m;
      if LONG_MIN <= n <= LONG_MAX then Some(n) else None
  }

  /** `xsan_str_to_int`. */
  function ScanInt(s: string): (r: Option<int>)
    ensures r.Some? ==> INT_MIN <= r.value <= INT_MAX
  {
    match ScanLong(s)
    case Some(n) => if INT_MIN <= n <= INT_MAX then Some(n) else None
    case None => None
  }

  /** The value of a sign and digits. */
  function Signed(sign: string, digits: string): int
    requires AllDigits(digits)
  {
    if sign == "-" then -(Number(digits) as int) else Number(digits)
  }

  /** A number is blank space, perhaps a sign, and digits to the end; it scans when it fits. */
  lemma ScanLongOf(a: string, sign: string, digits: string)
    requires Blank(a) && sign in ["", "+", "-"] && digits != [] && AllDigits(digits)
    ensures ScanLong(a + sign + digits) ==
      if LONG_MIN <= Signed(sign, digits) <= LONG_MAX then Some(Signed(sign, digits)) else None
  {
    hide SkipSpace, Number;
    var t := sign + digits;
    assert !IsSpace(t[0]) by {
      assert IsDigit(digits[0]);
    }
    SkipSpaceOf(a, t);
    assert a + sign + digits == a + t;
    if sign == "" {
      assert t == digits && IsDigit(t[0]);
    } else {
      assert t[1..] == digits;
    }
  }

  /** And nothing else does. */
  lemma ScanLongSplits(s: string) returns (a: string, sign: string, digits: string)
    requires ScanLong(s).Some?
    ensures Blank(a) && sign in ["", "+", "-"] && digits != [] && AllDigits(digits)
    ensures s == a + sign + digits && ScanLong(s) == Some(Signed(sign, digits))
  {
    hide SkipSpace, Number;
    a := SkipSpaceSplits(s);
    var t := SkipSpace(s);
    if t[0] == '-' || t[0] == '+' {
      sign, digits := t[..1], t[1..];
      assert t == sign + digits;
      assert sign == if t[0] == '-' then "-" else "+";
    } else {
      sign, digits := "", t;
    }
  }

  /** Positional value, from the left. */
  lemma {:induction false} NumberOfTwo(s: string, t: string)
    requires AllDigits(s) && AllDigits(t)
    ensures AllDigits(s + t) && Number(s + t) == Number(s) * Pow10(|t|) + Number(t)
  {
    if t == [] {
      assert s + t == s;
    } else {
      var n := |t| - 1;
      NumberOfTwo(s, t[..n]);
      assert (s + t)[..|s + t| - 1] == s + t[..n];
      assert Number(s) * Pow10(|t|) == Number(s) * Pow10(n) * 10;
    }
  }

  /** Printed numbers have no sign but a minus, and no leading zeros. */
  lemma {:induction false} DecimalIsPlain(n: nat)
    ensures Decimal(n) == Digits(n) && AllDigits(Digits(n)) && (Digits(n)[0] == '0' ==> n == 0 && |Digits(n)| == 1)
    ensures n > 0 ==> Decimal(-(n as int)) == "-" + Digits(n)
  {
    if n >= 10 {
      DecimalIsPlain(n / 10);
    }
  }

  /** A printed number is clean text and reads back as itself. */
  lemma ScanDecimal(n: int)
    requires LONG_MIN <= n <= LONG_MAX
    ensures ScanLong(Decimal(n)) == Some(n)
    ensures GoodValue(Decimal(n)) && '\n' !in Decimal(n)
  {
    hide Digits, Number;
    var m: int := if n < 0 then -n else n;
    NumberOfDigits(m);
    DigitsOfLong(m);
    if n < 0 {
      assert ("-" + Digits(m))[1..] == Digits(m);
    }
  }

  function Pow10(k: nat): nat {
    if k == 0 then 1 else 10 * Pow10(k - 1)
  }

  lemma {:induction false} Pow10Adds(a: nat, b: nat)
    ensures Pow10(a + b) == Pow10(a) * Pow10(b)
  {
    if a > 0 {
      Pow10Adds(a - 1, b);
      assert Pow10(a) * Pow10(b) == 10 * (Pow10(a - 1) * Pow10(b));
    }
  }

  lemma DigitsOfLong(n: nat)
    requires n <= -LONG_MIN
    ensures |Digits(n)| <= 19
  {
    assert Pow10(2) == 100;
    assert Pow10(3) == 1000;
    Pow10Adds(2, 3);
    Pow10Adds(5, 5);
    Pow10Adds(10, 5);
    Pow10Adds(15, 2);
    Pow10Adds(17, 2);
    DigitsShort(n, 19);
  }

  lemma {:induction false} DigitsShort(n: nat, k: nat)
    requires n < Pow10(k) && k > 0
    ensures |Digits(n)| <= k
  {
    if n >= 10 {
      DigitsShort(n / 10, k - 1);
    }
  }

  function Lower(s: string): (r: string)
    ensures |r| == |s|
  {
    if s == [] then [] else
      [if 'A' <= s[0] <= 'Z' then (s[0] as int + 32) as char else s[0]] + Lower(s[1..])
  }

  /** The word up to the case of its letters; `w` is in lower case. */
  predicate Spells(s: string, w: string) {
    |s| == |w| && forall i :: 0 <= i < |s| ==> s[i] == w[i] || ('A' <= s[i] <= 'Z' && s[i] as int + 32 == w[i] as int)
  }

  predicate LowerCase(w: string) {
    forall i :: 0 <= i < |w| ==> !('A' <= w[i] <= 'Z')
  }

  lemma {:induction false} LowerIffSpells(s: string, w: string)
    requires LowerCase(w)
    ensures Lower(s) == w <==> Spells(s, w)
  {
    if s != [] && w != [] {
      LowerIffSpells(s[1..], w[1..]);
      assert w == [w[0]] + w[1..];
      assert Spells(s, w) ==> Spells([s[0]], [w[0]]) && Spells(s[1..], w[1..]) by {
        if Spells(s, w) {
          assert s[0] == w[0] || ('A' <= s[0] <= 'Z' && s[0] as int + 32 == w[0] as int);
        }
      }
      assert Spells(s[1..], w[1..]) ==> forall i :: 1 <= i < |s| ==> s[i] == s[1..][i - 1] && (i < |w| ==> w[i] == w[1..][i - 1]);
    }
  }

  /** True and false each have four spellings, in any case. */
  lemma ScanBoolIff(s: string)
    ensures ScanBool(s) == Some(true) <==> Spells(s, "true") || Spells(s, "yes") || Spells(s, "on") || Spells(s, "1")
    ensures ScanBool(s) == Some(false) <==> Spells(s, "false") || Spells(s, "no") || Spells(s, "off") || Spells(s, "0")
  {
    hide Lower, Spells;
    LowerIffSpells(s, "true");
    LowerIffSpells(s, "yes");
    LowerIffSpells(s, "on");
    LowerIffSpells(s, "1");
    LowerIffSpells(s, "false");
    LowerIffSpells(s, "no");
    LowerIffSpells(s, "off");
    LowerIffSpells(s, "0");
  }

  /** `xsan_str_to_bool`. */
  function ScanBool(s: string): Option<bool> {
    var l := Lower(s);
    if l in ["true", "yes", "on", "1"] then Some(true)
    else if l in ["false", "no", "off", "0"] then Some(false)
    else None
  }
}
