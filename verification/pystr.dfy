/** Python `str` operations used by the engine: hex rendering
    (`bytes.hex`, `bytes.fromhex`), the `int(token, 16)` parse of header
    tokens such as `"0xAA"`, decimal digit strings, and the
    `split`/`strip`/`replace`/`join` calls of the report converter. */
module PyStr {
  import opened Wrappers
  import opened PyBytes

  predicate IsHexDigit(c: char) {
    ('0' <= c <= '9') || ('a' <= c <= 'f') || ('A' <= c <= 'F')
  }

  function HexValue(c: char): (r: nat)
    requires IsHexDigit(c)
    ensures r < 16
  {
    if '0' <= c <= '9' then (c - '0') as nat
    else if 'a' <= c <= 'f' then (c - 'a') as nat + 10
    else (c - 'A') as nat + 10
  }

  /** The lower-case hex digit `bytes.hex()` writes for `n`. */
  function HexChar(n: nat): (c: char)
    requires n < 16
    ensures IsHexDigit(c) && HexValue(c) == n
  {
    if n < 10 then ('0' as int + n) as char else ('a' as int + n - 10) as char
  }

  predicate IsDecDigit(c: char) {
    '0' <= c <= '9'
  }

  /** ASCII whitespace, the characters `bytes.fromhex` skips. */
  predicate IsAsciiSpace(c: char) {
    c == ' ' || c == '\t' || c == '\n' || c == '\r' || c == '\U{0B}' || c == '\U{0C}'
  }

  /** `c.isspace()`: the characters `str.strip()` and `int()` remove. */
  predicate IsStrSpace(c: char) {
    IsAsciiSpace(c) || ('\U{1C}' <= c <= '\U{1F}') || c == '\U{85}' || c == '\U{A0}'
    || c == '\U{1680}' || ('\U{2000}' <= c <= '\U{200A}') || c == '\U{2028}' || c == '\U{2029}'
    || c == '\U{202F}' || c == '\U{205F}' || c == '\U{3000}'
  }

  /** `token.lower().startswith("0x")` */
  predicate HasHexPrefix(t: string) {
    |t| >= 2 && t[0] == '0' && (t[1] == 'x' || t[1] == 'X')
  }

  predicate StartsWith(s: string, p: string) {
    IsPrefix(p, s)
  }

  predicate EndsWith(s: string, p: string) {
    IsSuffix(p, s)
  }

  /** `p in s` for strings. */
  predicate Contains(s: string, p: string) {
    Find(s, p) >= 0
  }

  function RStrip(s: string): (r: string)
    ensures IsPrefix(r, s)
    ensures |r| == 0 || !IsStrSpace(r[|r| - 1])
  {
    if |s| > 0 && IsStrSpace(s[|s| - 1]) then RStrip(s[..|s| - 1]) else s
  }

  function LStrip(s: string): (r: string)
    ensures IsSuffix(r, s)
    ensures |r| == 0 || !IsStrSpace(r[0])
  {
    if |s| > 0 && IsStrSpace(s[0]) then LStrip(s[1..]) else s
  }

  /** `s.strip()` */
  function Strip(s: string): string {
    RStrip(LStrip(s))
  }

  predicate IsDigitIn(c: char, base: nat) {
    if base == 16 then IsHexDigit(c) else IsDecDigit(c)
  }

  function DigitValue(c: char, base: nat): (r: nat)
    requires IsDigitIn(c, base)
    ensures base == 16 ==> r < 16
    ensures base != 16 ==> r < 10
  {
    if base == 16 then HexValue(c) else (c as int - '0' as int)
  }

  /** Digits of `base` with single underscores between them, as `int()`
      accepts them; `prevDigit` says whether the previous character was a
      digit. */
  function DigitsValue(b: string, base: nat, acc: nat, prevDigit: bool): Option<nat>
  {
    if |b| == 0 then (if prevDigit then Some(acc) else None)
    else if IsDigitIn(b[0], base) then DigitsValue(b[1..], base, acc * base + DigitValue(b[0], base), true)
    else if b[0] == '_' && prevDigit then DigitsValue(b[1..], base, acc, false)
    else None
  }

  /** `int(t, 16)` for a token `t` that starts with `0x`/`0X`: trailing
      whitespace is ignored and one underscore may follow the prefix. */
  function ParseHexToken(t: string): Result<nat>
    requires HasHexPrefix(t)
  {
    var body := RStrip(t[2..]);
    var digits := if |body| > 0 && body[0] == '_' then body[1..] else body;
    match DigitsValue(digits, 16, 0, false)
    case Some(v) => Ok(v)
    case None => Err("invalid literal for int() with base 16")
  }

  /** Each hex digit consumed multiplies the accumulator by 16. */
  lemma {:induction false} HexDigitsBound(b: string, acc: nat, prevDigit: bool, k: nat)
    requires acc < PyInt.Pow2(4 * k)
    requires DigitsValue(b, 16, acc, prevDigit).Some?
    requires |b| + k <= 2
    ensures DigitsValue(b, 16, acc, prevDigit).value < 256
  {
    if |b| == 0 {
      assert k <= 2;
      PyInt.Pow2Monotone(4 * k, 8);
      assert PyInt.Pow2(8) == 256;
    } else if IsHexDigit(b[0]) {
      assert PyInt.Pow2(4 * (k + 1)) == 16 * PyInt.Pow2(4 * k) by {
        PyInt.Pow2Add(4 * k, 4);
      }
      DigitsValue16Step(b, acc, prevDigit);
      HexDigitsBound(b[1..], acc * 16 + HexValue(b[0]), true, k + 1);
    } else {
      HexDigitsBound(b[1..], acc, false, k + 1);
    }
  }

  lemma DigitsValue16Step(b: string, acc: nat, prevDigit: bool)
    requires |b| > 0 && IsHexDigit(b[0])
    ensures DigitsValue(b, 16, acc, prevDigit) == DigitsValue(b[1..], 16, acc * 16 + HexValue(b[0]), true)
  {
  }

  /** A four-character token `0x??` parses to a byte whenever it parses. */
  lemma FourCharTokenIsByte(t: string)
    requires HasHexPrefix(t) && |t| == 4
    requires ParseHexToken(t).Ok?
    ensures ParseHexToken(t).value < 256
  {
    var body := RStrip(t[2..]);
    var digits := if |body| > 0 && body[0] == '_' then body[1..] else body;
    assert |digits| <= 2;
    HexDigitsBound(digits, 0, false, 0);
  }

  /** `bytes.hex()`: two lower-case digits per byte. */
  function ToHex(bs: seq<Byte>): (r: string)
    ensures |r| == 2 * |bs|
    ensures forall i :: 0 <= i < |r| ==> IsHexDigit(r[i])
  {
    if |bs| == 0 then [] else [HexChar(bs[0] / 16), HexChar(bs[0] % 16)] + ToHex(bs[1..])
  }

  /** `bytes.fromhex(s)`: pairs of hex digits, ASCII whitespace allowed
      before each pair; `None` where Python raises `ValueError`. */
  function FromHex(s: string): Option<seq<Byte>>
  {
    if |s| == 0 then Some([])
    else if IsAsciiSpace(s[0]) then FromHex(s[1..])
    else if |s| >= 2 && IsHexDigit(s[0]) && IsHexDigit(s[1]) then
      match FromHex(s[2..])
      case Some(rest) => Some([16 * HexValue(s[0]) + HexValue(s[1])] + rest)
      case None => None
    else None
  }

  /** `bytes.fromhex` reads back what `bytes.hex` writes. */
  lemma {:induction false} FromHexToHex(bs: seq<Byte>)
    ensures FromHex(ToHex(bs)) == Some(bs)
  {
    if |bs| > 0 {
      var s := ToHex(bs);
      assert s[2..] == ToHex(bs[1..]);
      FromHexToHex(bs[1..]);
      assert 16 * (bs[0] / 16) + bs[0] % 16 == bs[0];
      assert [bs[0]] + bs[1..] == bs;
    }
  }

  /** `s.isdigit()` for ASCII text. */
  predicate IsDecimal(s: string) {
    |s| > 0 && forall i :: 0 <= i < |s| ==> IsDecDigit(s[i])
  }

  function DecimalValue(s: string): nat
    requires forall i :: 0 <= i < |s| ==> IsDecDigit(s[i])
  {
    if |s| == 0 then 0
    else
      assert IsDecDigit(s[|s| - 1]);
      10 * DecimalValue(s[..|s| - 1]) + (s[|s| - 1] as int - '0' as int)
  }

  /** `int(s)` for a `str` in base 10: surrounding whitespace, an
      optional sign, then decimal digits with single underscores between
      them; `Err` where Python raises `ValueError`. */
  function PyIntOfStr(s: string): (r: Result<int>)
    ensures IsDecimal(s) ==> r == Ok(DecimalValue(s))
  {
    var t := Strip(s);
    var neg := |t| > 0 && t[0] == '-';
    var body := if |t| > 0 && (t[0] == '-' || t[0] == '+') then t[1..] else t;
    DecimalDigitsValue(s);
    match DigitsValue(body, 10, 0, false)
    case Some(v) => var n: int := v; Ok(if neg then -n else n)
    case None => Err("invalid literal for int() with base 10")
  }

  /** Plain decimal text is its own strip and parses digit by digit. */
  lemma DecimalDigitsValue(s: string)
    ensures IsDecimal(s) ==> Strip(s) == s
    ensures IsDecimal(s) ==> DigitsValue(s, 10, 0, false) == Some(DecimalValue(s))
  {
    if IsDecimal(s) {
      assert !IsStrSpace(s[0]) && !IsStrSpace(s[|s| - 1]);
      assert LStrip(s) == s;
      DigitsAccumulate(s, 0, false);
    }
  }

  /** Accumulating left to right agrees with `DecimalValue`, which peels
      the last digit. */
  lemma {:induction false} DigitsAccumulate(s: string, acc: nat, prevDigit: bool)
    requires IsDecimal(s)
    ensures DigitsValue(s, 10, acc, prevDigit) == Some(acc * Pow10(|s|) + DecimalValue(s))
    decreases |s|
  {
    if |s| == 1 {
      assert s[1..] == [];
      assert s[..0] == [];
    } else {
      var d := s[0] as int - '0' as int;
      assert IsDigitIn(s[0], 10) && DigitValue(s[0], 10) == d;
      assert DigitsValue(s, 10, acc, prevDigit) == DigitsValue(s[1..], 10, acc * 10 + d, true);
      DecimalValueCons(s);
      DigitsAccumulate(s[1..], acc * 10 + d, true);
      ShiftDigit(acc, d, Pow10(|s| - 1), DecimalValue(s[1..]));
    }
  }

  lemma TenTimes(d: nat, p: nat)
    ensures 10 * (d * p) == d * (10 * p)
  {
  }

  lemma ShiftDigit(acc: nat, d: nat, p: nat, rest: nat)
    ensures (acc * 10 + d) * p + rest == acc * (10 * p) + (d * p + rest)
  {
  }

  function Pow10(n: nat): (r: nat)
    ensures r >= 1
  {
    if n == 0 then 1 else 10 * Pow10(n - 1)
  }

  /** `DecimalValue` read from the front: the first digit weighs `10^(n-1)`. */
  lemma {:induction false} DecimalValueCons(s: string)
    requires IsDecimal(s) && |s| >= 2
    ensures IsDecimal(s[1..])
    ensures DecimalValue(s) == (s[0] as int - '0' as int) * Pow10(|s| - 1) + DecimalValue(s[1..])
    decreases |s|
  {
    assert forall i :: 0 <= i < |s| - 1 ==> s[1..][i] == s[i + 1];
    var init := s[..|s| - 1];
    assert forall i :: 0 <= i < |init| ==> init[i] == s[i];
    if |s| == 2 {
      assert init[..0] == [] && s[1..][..0] == [];
      assert init[1..] == [];
    } else {
      DecimalValueCons(init);
      var d0 := s[0] as int - '0' as int;
      var last := s[|s| - 1] as int - '0' as int;
      var mid := DecimalValue(init[1..]);
      assert init[1..] == s[1..][..|s| - 2];
      assert DecimalValue(s[1..]) == 10 * mid + last;
      assert DecimalValue(s) == 10 * (d0 * Pow10(|s| - 2) + mid) + last;
      TenTimes(d0, Pow10(|s| - 2));
    }
  }

  function NatToDecimal(n: nat): (r: string)
    ensures |r| > 0 && forall i :: 0 <= i < |r| ==> IsDecDigit(r[i])
  {
    if n < 10 then [('0' as int + n) as char]
    else NatToDecimal(n / 10) + [('0' as int + n % 10) as char]
  }

  /** `str(n)` for an integer. */
  function IntToDecimal(n: int): string {
    if n < 0 then "-" + NatToDecimal(-n) else NatToDecimal(n)
  }

  /** `int(str(n))` is `n`. */
  lemma {:induction false} DecimalRoundTrip(n: nat)
    ensures IsDecimal(NatToDecimal(n))
    ensures DecimalValue(NatToDecimal(n)) == n
    ensures PyIntOfStr(NatToDecimal(n)) == Ok(n)
  {
    if n >= 10 {
      var s := NatToDecimal(n);
      assert s[..|s| - 1] == NatToDecimal(n / 10);
      DecimalRoundTrip(n / 10);
    }
  }

  /** `s.split(sep)` for a one-character separator: the pieces between
      separators, always at least one. */
  function Split(s: string, sep: char): (r: seq<string>)
    ensures |r| >= 1
    ensures forall i :: 0 <= i < |r| ==> sep !in r[i]
  {
    SplitFrom(s, sep, [])
  }

  function SplitFrom(s: string, sep: char, cur: string): (r: seq<string>)
    requires sep !in cur
    ensures |r| >= 1
    ensures forall i :: 0 <= i < |r| ==> sep !in r[i]
    decreases |s|
  {
    if |s| == 0 then [cur]
    else if s[0] == sep then [cur] + SplitFrom(s[1..], sep, [])
    else SplitFrom(s[1..], sep, cur + [s[0]])
  }

  /** `sep.join(parts)` */
  function Join(parts: seq<string>, sep: string): string {
    if |parts| == 0 then ""
    else if |parts| == 1 then parts[0]
    else parts[0] + sep + Join(parts[1..], sep)
  }

  /** `s.replace(target, repl, 1)` for a one-character `target`. */
  function ReplaceFirst(s: string, target: char, repl: string): (r: string)
    ensures target !in s ==> r == s
  {
    if |s| == 0 then s
    else if s[0] == target then repl + s[1..]
    else [s[0]] + ReplaceFirst(s[1..], target, repl)
  }
}
