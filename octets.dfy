/**
  Byte strings rendered as text (utils/utils.py): `bytewise` and `bytewise2`
  (uppercase hexadecimal octets, optionally collapsed past a limit) and
  `bitwise` (binary octets), with `bytes.fromhex` as the inverse of `bytewise`.
*/
module Octets {
  import opened Wrappers
  import opened BitOps
  import opened Text

  newtype byte = x: int | 0 <= x < 256

  const LowerDigits: string := "0123456789abcdef"
  const UpperDigits: string := "0123456789ABCDEF"

  // ---------------------------------------------------------------------------
  // Text helpers

  /** `islice(parts, n)`: at most the first n items. */
  function Take(parts: seq<string>, n: nat): seq<string>
  {
    if n <= |parts| then parts[..n] else parts
  }

  /** `str(n)` for a natural number. */
  function Decimal(n: nat): (s: string)
    ensures s != [] && forall i :: 0 <= i < |s| ==> '0' <= s[i] <= '9'
  {
    var last := ('0' as int + n % 10) as char;
    if n < 10 then [last] else Decimal(n / 10) + [last]
  }

  // ---------------------------------------------------------------------------
  // bytewise / bytewise2

  /** `bytes.hex()`: two lowercase hexadecimal digits per byte. */
  function Hex(bs: seq<byte>): (s: string)
    ensures |s| == 2 * |bs|
  {
    if bs == [] then []
    else [LowerDigits[bs[0] as int / 16], LowerDigits[bs[0] as int % 16]] + Hex(bs[1..])
  }

  /** `str.upper()` on the ASCII letters a string of hexadecimal digits can hold. */
  function Upper(s: string): (u: string)
    ensures |u| == |s|
  {
    if s == [] then []
    else [if 'a' <= s[0] <= 'z' then (s[0] as int - 32) as char else s[0]] + Upper(s[1..])
  }

  /** `map(''.join, zip(*repeat(iter(s), 2)))`: consecutive pairs of characters; an odd last one is dropped. */
  function Pairs(s: string): seq<string>
  {
    if |s| < 2 then [] else [s[..2]] + Pairs(s[2..])
  }

  /** `f'{byte:02X}'` */
  function Octet(b: byte): (o: string)
    ensures |o| == 2
  {
    [UpperDigits[b as int / 16], UpperDigits[b as int % 16]]
  }

  /** `(f'{byte:02X}' for byte in bs)` */
  function OctetsOf(bs: seq<byte>): (os: seq<string>)
    ensures |os| == |bs| && forall i :: 0 <= i < |bs| ==> os[i] == Octet(bs[i])
  {
    seq(|bs|, i requires 0 <= i < |bs| => Octet(bs[i]))
  }

  /** The `ValueError` raised for a limit below 2. */
  datatype LimitError = LimitBelowTwo

  /** `' (N bytes)'` when `show_len` is set. */
  function Appendix(n: nat, showLen: bool): string
  {
    if showLen then " (" + Decimal(n) + " bytes)" else ""
  }

  /** `bytewise(bs, sep, limit, show_len)`: hex of the whole string, uppercased, cut into pairs. */
  function Bytewise(bs: seq<byte>, sep: string, limit: Option<int>, showLen: bool): Result<string, LimitError>
  {
    var octets := Pairs(Upper(Hex(bs)));
    if limit.None? || |bs| <= limit.value then Ok(JoinWith(sep, octets))
    else if limit.value < 2 then Err(LimitBelowTwo)
    else
      var head := Take(octets, limit.value - 2);
      var last := Upper(Hex(bs[|bs| - 1..]));
      Ok(JoinWith(sep, head + ["..", last]) + Appendix(|bs|, showLen))
  }

  /** `bytewise2(bs, sep, limit, show_len)`: each byte formatted on its own. */
  function Bytewise2(bs: seq<byte>, sep: string, limit: Option<int>, showLen: bool): Result<string, LimitError>
  {
    var octets := OctetsOf(bs);
    if limit.None? || |bs| <= limit.value then Ok(JoinWith(sep, octets))
    else if limit.value < 2 then Err(LimitBelowTwo)
    else
      var head := Take(octets, limit.value - 2);
      var last := Octet(bs[|bs| - 1]);
      Ok(JoinWith(sep, head + ["..", last]) + Appendix(|bs|, showLen))
  }

  lemma {:induction false} UpperConcat(a: string, b: string)
    ensures Upper(a + b) == Upper(a) + Upper(b)
    decreases |a|
  {
    if a == [] {
      assert a + b == b;
    } else {
      assert (a + b)[0] == a[0];
      assert (a + b)[1..] == a[1..] + b;
      UpperConcat(a[1..], b);
    }
  }

  /** Uppercasing a lowercase digit gives the uppercase digit of the same value. */
  lemma UpperDigit(j: nat)
    requires j < 16
    ensures Upper([LowerDigits[j]]) == [UpperDigits[j]]
  {
  }

  /** The hex of one byte, uppercased, is its `02X` octet. */
  lemma UpperHexByte(b: byte)
    ensures Upper(Hex([b])) == Octet(b)
  {
    var h, l := b as int / 16, b as int % 16;
    assert Hex([b]) == [LowerDigits[h]] + [LowerDigits[l]];
    UpperConcat([LowerDigits[h]], [LowerDigits[l]]);
    UpperDigit(h);
    UpperDigit(l);
  }

  /** Cutting the uppercased hex of bs into pairs gives the `02X` octets of its bytes. */
  lemma {:induction false} PairsOfHex(bs: seq<byte>)
    ensures Pairs(Upper(Hex(bs))) == OctetsOf(bs)
    decreases |bs|
  {
    if bs != [] {
      var b := bs[0];
      assert Hex(bs) == Hex([b]) + Hex(bs[1..]);
      UpperConcat(Hex([b]), Hex(bs[1..]));
      UpperHexByte(b);
      var u := Upper(Hex(bs));
      assert u[..2] == Octet(b);
      assert u[2..] == Upper(Hex(bs[1..]));
      PairsOfHex(bs[1..]);
    }
  }

  /** `bytewise` and `bytewise2` return the same text and fail on the same limits. */
  lemma BytewiseAgree(bs: seq<byte>, sep: string, limit: Option<int>, showLen: bool)
    ensures Bytewise(bs, sep, limit, showLen) == Bytewise2(bs, sep, limit, showLen)
  {
    PairsOfHex(bs);
    if bs != [] {
      UpperHexByte(bs[|bs| - 1]);
      assert bs[|bs| - 1..] == [bs[|bs| - 1]];
    }
  }

  /**
    What `bytewise` returns: every octet joined by `sep` within the limit;
    past a limit of at least 2, the first `limit - 2` octets, `..` and the last
    octet, then the length if asked; past a smaller limit, an error.
  */
  lemma BytewiseSpec(bs: seq<byte>, sep: string, limit: Option<int>, showLen: bool)
    ensures limit.None? || |bs| <= limit.value ==>
      Bytewise(bs, sep, limit, showLen) == Ok(JoinWith(sep, OctetsOf(bs)))
    ensures limit.Some? && |bs| > limit.value ==>
      (Bytewise(bs, sep, limit, showLen).Err? <==> limit.value < 2)
    ensures limit.Some? && |bs| > limit.value >= 2 ==>
      Bytewise(bs, sep, limit, showLen) ==
        Ok(JoinWith(sep, OctetsOf(bs)[..limit.value - 2] + ["..", Octet(bs[|bs| - 1])])
           + Appendix(|bs|, showLen))
  {
    BytewiseAgree(bs, sep, limit, showLen);
  }

  // ---------------------------------------------------------------------------
  // bytes.fromhex, the inverse of bytewise

  /** Whitespace that `bytes.fromhex` skips between octets. */
  predicate IsSpace(c: char)
  {
    c == ' ' || c == '\t' || c == '\n' || c == '\r' || c as int == 11 || c as int == 12
  }

  /** Value of a hexadecimal digit of either case. */
  function HexValue(c: char): (v: Option<nat>)
    ensures v.Some? ==> v.value < 16
  {
    if '0' <= c <= '9' then Some(c as int - '0' as int)
    else if 'a' <= c <= 'f' then Some(c as int - 'a' as int + 10)
    else if 'A' <= c <= 'F' then Some(c as int - 'A' as int + 10)
    else None
  }

  /** `bytes.fromhex(s)`, None where it raises. */
  function FromHex(s: string): Option<seq<byte>>
    decreases |s|
  {
    if s == [] then Some([])
    else if IsSpace(s[0]) then FromHex(s[1..])
    else if |s| < 2 || HexValue(s[0]).None? || HexValue(s[1]).None? then None
    else
      match FromHex(s[2..])
      case Some(rest) => Some([(16 * HexValue(s[0]).value + HexValue(s[1]).value) as byte] + rest)
      case None => None
  }

  lemma {:induction false} FromHexSkip(sep: string, t: string)
    requires forall i :: 0 <= i < |sep| ==> IsSpace(sep[i])
    ensures FromHex(sep + t) == FromHex(t)
    decreases |sep|
  {
    if sep == [] {
      assert sep + t == t;
    } else {
      assert (sep + t)[0] == sep[0];
      assert (sep + t)[1..] == sep[1..] + t;
      FromHexSkip(sep[1..], t);
    }
  }

  lemma FromHexOctet(b: byte, t: string)
    ensures FromHex(Octet(b) + t) ==
      match FromHex(t) case Some(rest) => Some([b] + rest) case None => None
  {
    var s := Octet(b) + t;
    assert s[2..] == t;
    HexUpper(b as int / 16);
    HexUpper(b as int % 16);
    assert s[0] == UpperDigits[b as int / 16] && s[1] == UpperDigits[b as int % 16];
  }

  /** Each upper-case hex digit reads back as its value, and is not whitespace. */
  lemma HexUpper(n: nat)
    requires n < 16
    ensures HexValue(UpperDigits[n]) == Some(n) && !IsSpace(UpperDigits[n])
  {
    if n < 10 {
      assert UpperDigits[n] as int == '0' as int + n;
    } else {
      assert UpperDigits[n] as int == 'A' as int + n - 10;
    }
  }

  /** `bytes.fromhex(sep.join(octets))` gives the bytes back when `sep` is whitespace. */
  lemma {:induction false} FromHexJoin(bs: seq<byte>, sep: string)
    requires forall i :: 0 <= i < |sep| ==> IsSpace(sep[i])
    ensures FromHex(JoinWith(sep, OctetsOf(bs))) == Some(bs)
    decreases |bs|
  {
    var os := OctetsOf(bs);
    if |bs| == 0 {
      assert JoinWith(sep, os) == [];
    } else if |bs| == 1 {
      FromHexOctet(bs[0], []);
      assert Octet(bs[0]) + [] == Octet(bs[0]);
      assert FromHex([]) == Some([]);
      assert bs == [bs[0]] + [];
    } else if |bs| > 1 {
      assert os[1..] == OctetsOf(bs[1..]);
      var rest := JoinWith(sep, os[1..]);
      FromHexJoin(bs[1..], sep);
      FromHexSkip(sep, rest);
      FromHexOctet(bs[0], sep + rest);
      assert JoinWith(sep, os) == Octet(bs[0]) + (sep + rest);
      assert bs == [bs[0]] + bs[1..];
    }
  }

  /** Within the limit, `bytes.fromhex(bytewise(bs, sep))` is bs for a whitespace `sep`. */
  lemma BytewiseFromHex(bs: seq<byte>, sep: string, limit: Option<int>, showLen: bool)
    requires forall i :: 0 <= i < |sep| ==> IsSpace(sep[i])
    requires limit.None? || |bs| <= limit.value
    ensures Bytewise(bs, sep, limit, showLen).Ok?
    ensures FromHex(Bytewise(bs, sep, limit, showLen).value) == Some(bs)
  {
    BytewiseSpec(bs, sep, limit, showLen);
    FromHexJoin(bs, sep);
  }

  // ---------------------------------------------------------------------------
  // bitwise

  /** `f'{v:0{width}b}'` for v below `2 ** width`: binary digits, most significant first. */
  function Bin(v: nat, width: nat): (s: string)
    ensures |s| == width
  {
    if width == 0 then [] else Bin(v / 2, width - 1) + [if v % 2 == 1 then '1' else '0']
  }

  /** The number a string of binary digits denotes. */
  function BinValue(s: string): nat
  {
    if s == [] then 0 else 2 * BinValue(s[..|s| - 1]) + (if s[|s| - 1] == '1' then 1 else 0)
  }

  /** Binary digits read back give the number, and they are only `0`s and `1`s. */
  lemma {:induction false} BinRoundTrip(v: nat, width: nat)
    requires v < Pow2(width)
    ensures BinValue(Bin(v, width)) == v
    ensures forall i :: 0 <= i < width ==> Bin(v, width)[i] in "01"
    decreases width
  {
    if width > 0 {
      BinRoundTrip(v / 2, width - 1);
      var s := Bin(v, width);
      assert s[..width - 1] == Bin(v / 2, width - 1);
    }
  }

  /** `sep.join(f"{byte:08b}" for byte in bs)` */
  function Bitwise(bs: seq<byte>, sep: string): string
  {
    JoinWith(sep, seq(|bs|, i requires 0 <= i < |bs| => Bin(bs[i] as nat, 8)))
  }

  /** Joining n pieces of one width w gives `n * w` characters plus `n - 1` separators. */
  lemma {:induction false} JoinLength(sep: string, parts: seq<string>, w: nat)
    requires forall k :: 0 <= k < |parts| ==> |parts[k]| == w
    ensures parts != [] ==> |JoinWith(sep, parts)| == |parts| * w + (|parts| - 1) * |sep|
    decreases |parts|
  {
    if |parts| > 1 {
      JoinLength(sep, parts[1..], w);
    }
  }

  /** Joining pieces of one width w puts piece i at offset `i * (w + |sep|)`. */
  lemma {:induction false} JoinPiece(sep: string, parts: seq<string>, w: nat, i: nat)
    requires forall k :: 0 <= k < |parts| ==> |parts[k]| == w
    requires i < |parts|
    ensures var off := i * (w + |sep|);
      off + w <= |JoinWith(sep, parts)| && JoinWith(sep, parts)[off..off + w] == parts[i]
    decreases |parts|
  {
    var stride := w + |sep|;
    var whole := JoinWith(sep, parts);
    if i == 0 {
      assert i * stride == 0;
      if |parts| > 1 {
        assert whole == parts[0] + (sep + JoinWith(sep, parts[1..]));
      }
      assert whole[..w] == parts[0];
    } else {
      var rest := parts[1..];
      var t := JoinWith(sep, rest);
      var off' := (i - 1) * stride;
      JoinPiece(sep, rest, w, i - 1);
      assert i * stride == off' + stride;
      var head := parts[0] + sep;
      assert whole == head + t;
      PieceAfter(head, t, off', w, parts[i]);
    }
  }

  /** out holds sep at offset s. */
  predicate SepAt(out: string, sep: string, s: nat)
  {
    s + |sep| <= |out| && out[s..s + |sep|] == sep
  }

  /** Joining pieces of one width w puts sep right after piece i whenever another piece follows. */
  lemma {:induction false} JoinSep(sep: string, parts: seq<string>, w: nat, i: nat)
    requires forall k :: 0 <= k < |parts| ==> |parts[k]| == w
    requires i + 1 < |parts|
    ensures SepAt(JoinWith(sep, parts), sep, i * (w + |sep|) + w)
    decreases |parts|
  {
    var stride := w + |sep|;
    var rest := parts[1..];
    var t := JoinWith(sep, rest);
    var whole := JoinWith(sep, parts);
    assert whole == parts[0] + sep + t;
    if i == 0 {
      assert whole[w..w + |sep|] == sep;
    } else {
      var s' := (i - 1) * stride + w;
      JoinSep(sep, rest, w, i - 1);
      assert i * stride + w == |parts[0] + sep| + s';
      PieceAfter(parts[0] + sep, t, s', |sep|, sep);
    }
  }

  /** A piece at offset off of t is at offset `|head| + off` of `head + t`. */
  lemma PieceAfter(head: string, t: string, off: nat, w: nat, piece: string)
    requires off + w <= |t| && t[off..off + w] == piece
    ensures |head| + off + w <= |head + t| && (head + t)[|head| + off..|head| + off + w] == piece
  {
    assert (head + t)[|head| + off..|head| + off + w] == t[off..off + w];
  }

  /**
    `bitwise` gives each byte exactly 8 binary digits at a fixed stride, so
    every byte can be read back, with sep between consecutive octets.
  */
  lemma BitwiseSpec(bs: seq<byte>, sep: string, i: nat)
    requires i < |bs|
    ensures |Bitwise(bs, sep)| == 8 * |bs| + (|bs| - 1) * |sep|
    ensures i * (8 + |sep|) + 8 <= |Bitwise(bs, sep)|
    ensures var off := i * (8 + |sep|);
      && Bitwise(bs, sep)[off..off + 8] == Bin(bs[i] as nat, 8)
      && BinValue(Bitwise(bs, sep)[off..off + 8]) == bs[i] as nat
    ensures i + 1 < |bs| ==> SepAt(Bitwise(bs, sep), sep, i * (8 + |sep|) + 8)
  {
    var parts := seq(|bs|, k requires 0 <= k < |bs| => Bin(bs[k] as nat, 8));
    JoinLength(sep, parts, 8);
    JoinPiece(sep, parts, 8, i);
    assert Pow2(8) == 256;
    BinRoundTrip(bs[i] as nat, 8);
    if i + 1 < |bs| {
      BitwiseSeparated(bs, sep, i);
    }
  }

  /** sep sits between octet i and octet i + 1. */
  lemma BitwiseSeparated(bs: seq<byte>, sep: string, i: nat)
    requires i + 1 < |bs|
    ensures SepAt(Bitwise(bs, sep), sep, i * (8 + |sep|) + 8)
  {
    var parts := seq(|bs|, k requires 0 <= k < |bs| => Bin(bs[k] as nat, 8));
    JoinSep(sep, parts, 8, i);
  }

  lemma BitwiseEmpty(sep: string)
    ensures Bitwise([], sep) == ""
  {
  }
}
