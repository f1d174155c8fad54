/** Turning `frame.header` (a list of `"0x.."` strings) into bytes.

    The scripts carry three variants: the strict one (transport session,
    live framing, and the protocol detector's `parse_hex_bytes`), the
    detector's `extract_header`, which first applies `str()` to each token,
    and the lenient one of the decoder and encoder, which skips tokens that
    do not start with `0x`. */
module Headers {
  import opened Wrappers
  import opened PyBytes
  import opened PyStr
  import opened Spec

  /** A token the strict parsers accept as written: a four-character string
      starting with `0x`/`0X`. */
  predicate IsByteToken(t: string) {
    |t| == 4 && HasHexPrefix(t)
  }

  /** One strict token: `int(t, 16)` after the shape check. */
  function StrictByte(t: string): (r: Result<Byte>)
    ensures r.Ok? <==> IsByteToken(t) && ParseHexToken(t).Ok?
    ensures r.Ok? ==> r.value == ParseHexToken(t).value
  {
    if !IsByteToken(t) then Err("Invalid header byte token")
    else
      match ParseHexToken(t)
      case Err(m) => Err(m)
      case Ok(v) =>
        FourCharTokenIsByte(t);
        Ok(v)
  }

  /** `parse_hex_bytes(tokens)`: one byte per token, or the first error. */
  function ParseHexBytes(tokens: seq<Token>): (r: Result<seq<Byte>>)
    ensures r.Ok? <==> forall i :: 0 <= i < |tokens| ==> tokens[i].TokStr? && StrictByte(tokens[i].s).Ok?
    ensures r.Ok? ==> |r.value| == |tokens|
    ensures r.Ok? ==> forall i :: 0 <= i < |tokens| ==> r.value[i] == StrictByte(tokens[i].s).value
  {
    if |tokens| == 0 then Ok([])
    else if !tokens[0].TokStr? then Err("Invalid header byte token")
    else
      match StrictByte(tokens[0].s)
      case Err(m) => Err(m)
      case Ok(b) =>
        match ParseHexBytes(tokens[1..])
        case Err(m) => Err(m)
        case Ok(rest) =>
          assert forall i :: 1 <= i < |tokens| ==> tokens[1..][i - 1] == tokens[i];
          Ok([b] + rest)
  }

  /** `extract_header` of the transport session and live framing scripts:
      `header` must be a non-empty list of strict tokens. */
  function ExtractHeader(h: HeaderJson): (r: Result<seq<Byte>>)
    ensures r.Ok? <==> h.HeaderList? && |h.tokens| > 0 && ParseHexBytes(h.tokens).Ok?
    ensures r.Ok? ==> r.value == ParseHexBytes(h.tokens).value && |r.value| == |h.tokens| > 0
  {
    match h
    case HeaderList(tokens) =>
      if |tokens| == 0 then Err("frame.header must be a non-empty list") else ParseHexBytes(tokens)
    case _ => Err("frame.header must be a non-empty list")
  }

  /** `str(token)` */
  function TokenText(t: Token): string {
    match t
    case TokStr(s) => s
    case TokInt(i) => IntToDecimal(i)
  }

  /** The protocol detector's `extract_header`: like `ExtractHeader` but
      each token is first turned into text with `str()`. */
  function DetectHeader(h: HeaderJson): (r: Result<seq<Byte>>)
    ensures r.Ok? ==> h.HeaderList? && |r.value| == |h.tokens| > 0
    ensures r.Ok? ==> forall i :: 0 <= i < |h.tokens| ==>
              StrictByte(TokenText(h.tokens[i])).Ok? && r.value[i] == StrictByte(TokenText(h.tokens[i])).value
    ensures h.HeaderList? && |h.tokens| > 0 && (forall i :: 0 <= i < |h.tokens| ==> h.tokens[i].TokStr?)
            ==> r == ExtractHeader(h)
  {
    match h
    case HeaderList(tokens) =>
      if |tokens| == 0 then Err("frame.header must be a non-empty list")
      else
        var texts := seq(|tokens|, i requires 0 <= i < |tokens| => TokStr(TokenText(tokens[i])));
        assert (forall i :: 0 <= i < |tokens| ==> tokens[i].TokStr?) ==> texts == tokens;
        assert forall i :: 0 <= i < |tokens| ==> texts[i].s == TokenText(tokens[i]);
        ParseHexBytes(texts)
    case _ => Err("frame.header must be a non-empty list")
  }

  /** A token the lenient parsers read: a string starting with `0x`/`0X`. */
  predicate IsHexString(t: Token) {
    t.TokStr? && HasHexPrefix(t.s)
  }

  /** The tokens the lenient parsers read, in order; the others are
      skipped. */
  function HexStrings(tokens: seq<Token>): (r: seq<Token>)
    ensures |r| <= |tokens|
    ensures forall i :: 0 <= i < |r| ==> IsHexString(r[i])
  {
    if |tokens| == 0 then []
    else (if IsHexString(tokens[0]) then [tokens[0]] else []) + HexStrings(tokens[1..])
  }

  /** A read token gives a byte when `int(t, 16)` parses it below 256. */
  predicate ReadsAsByte(t: Token)
    requires IsHexString(t)
  {
    ParseHexToken(t.s).Ok? && ParseHexToken(t.s).value < 256
  }

  /** `bs` holds one byte per token of `kept`, in order, each the value
      `int(t, 16)` gives that token. */
  predicate ReadsTo(kept: seq<Token>, bs: seq<Byte>)
    requires forall i :: 0 <= i < |kept| ==> IsHexString(kept[i])
  {
    |bs| == |kept|
    && forall i :: 0 <= i < |kept| ==> ReadsAsByte(kept[i]) && bs[i] == ParseHexToken(kept[i].s).value
  }

  /** Reading two runs of tokens one after the other reads their
      concatenation. */
  lemma ReadsToAppend(k1: seq<Token>, b1: seq<Byte>, k2: seq<Token>, b2: seq<Byte>)
    requires forall i :: 0 <= i < |k1| ==> IsHexString(k1[i])
    requires forall i :: 0 <= i < |k2| ==> IsHexString(k2[i])
    requires ReadsTo(k1, b1) && ReadsTo(k2, b2)
    ensures forall i :: 0 <= i < |k1 + k2| ==> IsHexString((k1 + k2)[i])
    ensures ReadsTo(k1 + k2, b1 + b2)
  {
    assert forall i :: |k1| <= i < |k1 + k2| ==> (k1 + k2)[i] == k2[i - |k1|] && (b1 + b2)[i] == b2[i - |k1|];
  }

  /** The lenient token list of the decoder and encoder: tokens that are
      not `0x..` strings are skipped, the rest parse with `int(t, 16)` and
      must fit a byte (`bytearray.append` raises otherwise).  The result
      holds one byte per read token, in order. */
  function LenientTokens(tokens: seq<Token>): (r: Result<seq<Byte>>)
    ensures r.Ok? <==> forall i :: 0 <= i < |tokens| && IsHexString(tokens[i]) ==> ReadsAsByte(tokens[i])
    ensures r.Ok? ==> ReadsTo(HexStrings(tokens), r.value)
    ensures (forall i :: 0 <= i < |tokens| ==> !IsHexString(tokens[i])) ==> r == Ok([])
  {
    if |tokens| == 0 then Ok([])
    else
      assert forall i :: 1 <= i < |tokens| ==> tokens[1..][i - 1] == tokens[i];
      var head :- LenientToken(tokens[0]);
      var rest :- LenientTokens(tokens[1..]);
      ReadsToAppend(if IsHexString(tokens[0]) then [tokens[0]] else [], head, HexStrings(tokens[1..]), rest);
      Ok(head + rest)
  }

  /** What one token adds to the lenient list: nothing, one byte, or the
      error that ends the list. */
  function LenientToken(t: Token): (r: Result<seq<Byte>>)
    ensures !IsHexString(t) ==> r == Ok([])
    ensures IsHexString(t) ==> (r.Ok? <==> ReadsAsByte(t))
    ensures IsHexString(t) && r.Ok? ==> r.value == [ParseHexToken(t.s).value]
  {
    match t
    case TokStr(s) =>
      if !HasHexPrefix(s) then Ok([])
      else
        var v :- ParseHexToken(s);
        if v < 256 then Ok([v]) else Err("byte must be in range(0, 256)")
    case TokInt(_) => Ok([])
  }

  /** Skipped tokens change nothing, not even which error is raised: the
      lenient list is the lenient list of the read tokens alone. */
  lemma {:induction false} LenientSkipsOthers(tokens: seq<Token>)
    ensures LenientTokens(tokens) == LenientTokens(HexStrings(tokens))
  {
    if |tokens| > 0 {
      var rest := HexStrings(tokens[1..]);
      LenientSkipsOthers(tokens[1..]);
      if IsHexString(tokens[0]) {
        assert HexStrings(tokens) == [tokens[0]] + rest;
        assert ([tokens[0]] + rest)[1..] == rest;
      } else {
        assert HexStrings(tokens) == rest;
        assert LenientToken(tokens[0]) == Ok([]);
        match LenientTokens(tokens[1..])
        case Ok(v) => assert [] + v == v;
        case Err(_) =>
      }
    }
  }

  /** The decoder's `extract_header`: a non-empty list, read leniently;
      the result may be empty when no token is a `0x..` string. */
  function LenientHeader(h: HeaderJson): (r: Result<seq<Byte>>)
    ensures r.Ok? ==> h.HeaderList? && |h.tokens| > 0 && r == LenientTokens(h.tokens)
    ensures h.HeaderList? && |h.tokens| > 0 ==> r == LenientTokens(h.tokens)
  {
    match h
    case HeaderList(tokens) =>
      if |tokens| == 0 then Err("frame.header must be a non-empty list") else LenientTokens(tokens)
    case HeaderAbsent => Err("frame.header must be a non-empty list")
    case HeaderNotList => Err("frame.header must be a non-empty list")
  }

  /** The canonical token for a byte, `"0x%02x"`. */
  function ByteToken(b: Byte): (t: string)
    ensures IsByteToken(t)
  {
    "0x" + ToHex([b])
  }

  /** The canonical token of a byte reads back as that byte. */
  lemma ByteTokenParses(b: Byte)
    ensures StrictByte(ByteToken(b)) == Ok(b)
  {
    var t := ByteToken(b);
    var hex := ToHex([b]);
    assert t[2..] == hex;
    assert !IsStrSpace(hex[1]);
    assert RStrip(hex) == hex;
    assert hex[0] != '_';
    assert hex[1..][1..] == [];
    assert IsHexDigit(hex[0]) && IsHexDigit(hex[1]) && hex[1..][0] == hex[1];
    assert DigitsValue(hex, 16, 0, false) == DigitsValue(hex[1..], 16, HexValue(hex[0]), true);
    assert DigitsValue(hex[1..], 16, HexValue(hex[0]), true)
        == DigitsValue(hex[1..][1..], 16, HexValue(hex[0]) * 16 + HexValue(hex[1]), true);
  }

  /** Strict header parsing inverts rendering the bytes as `"0x.."` tokens. */
  lemma {:induction false} HeaderRoundTrip(bs: seq<Byte>)
    ensures ParseHexBytes(seq(|bs|, i requires 0 <= i < |bs| => TokStr(ByteToken(bs[i])))) == Ok(bs)
  {
    var toks := seq(|bs|, i requires 0 <= i < |bs| => TokStr(ByteToken(bs[i])));
    forall i | 0 <= i < |bs|
      ensures StrictByte(toks[i].s) == Ok(bs[i])
    {
      ByteTokenParses(bs[i]);
    }
    var r := ParseHexBytes(toks);
    assert r.Ok?;
    assert r.value == bs;
  }
}
