/**
 * `convert_image_to_base64`: the standard base64 encoding of section 4 of
 * RFC 4648 (alphabet `A`-`Z`, `a`-`z`, `0`-`9`, `+`, `/`, padded with `=`),
 * with a strict decoder as its inverse.
 *
 * The encoding is built in two layers: bytes to 6-bit symbols, where the
 * symbol 64 stands for the pad character, and symbols to characters.
 */
module Base64 {
  import opened Common

  /** The symbol that stands for the pad character `=`. */
  const Pad := 64

  /** A 6-bit value, or `Pad`. */
  predicate IsSymbol(k: int)
  {
    0 <= k <= Pad
  }

  /** The character for a symbol (Table 1 of RFC 4648, and `=` for `Pad`). */
  function CharOf(k: int): (c: char)
    requires IsSymbol(k)
  {
    if k < 26 then ('A' as int + k) as char
    else if k < 52 then ('a' as int + (k - 26)) as char
    else if k < 62 then ('0' as int + (k - 52)) as char
    else if k == 62 then '+'
    else if k == 63 then '/'
    else '='
  }

  /** The symbol of a character, `None` for a character outside the alphabet and `=`. */
  function SymbolOf(c: char): (r: Option<int>)
    ensures r.Some? ==> IsSymbol(r.value)
  {
    if 'A' <= c <= 'Z' then Some(c as int - 'A' as int)
    else if 'a' <= c <= 'z' then Some(c as int - 'a' as int + 26)
    else if '0' <= c <= '9' then Some(c as int - '0' as int + 52)
    else if c == '+' then Some(62)
    else if c == '/' then Some(63)
    else if c == '=' then Some(Pad)
    else None
  }

  /** Distinct symbols have distinct characters, and `SymbolOf` reads them back. */
  lemma SymbolOfCharOf(k: int)
    requires IsSymbol(k)
    ensures SymbolOf(CharOf(k)) == Some(k)
  {
  }

  /** Every character with a symbol is the character of that symbol. */
  lemma CharOfSymbolOf(c: char)
    requires SymbolOf(c).Some?
    ensures CharOf(SymbolOf(c).value) == c
  {
  }

  /** A character of the 64-character alphabet. */
  predicate IsAlphabetChar(c: char)
  {
    SymbolOf(c).Some? && SymbolOf(c).value < Pad
  }

  /** All entries are symbols. */
  ghost predicate AllSymbols(s: seq<int>)
  {
    forall i :: 0 <= i < |s| ==> IsSymbol(s[i])
  }

  /** Three bytes become four 6-bit values. */
  function Group3(b0: byte, b1: byte, b2: byte): (g: seq<int>)
  {
    [b0 / 4, (b0 % 4) * 16 + b1 / 16, (b1 % 16) * 4 + b2 / 64, b2 % 64]
  }

  /** A final group of two bytes: three values and one pad. */
  function Group2(b0: byte, b1: byte): (g: seq<int>)
  {
    [b0 / 4, (b0 % 4) * 16 + b1 / 16, (b1 % 16) * 4, Pad]
  }

  /** A final single byte: two values and two pads. */
  function Group1(b0: byte): (g: seq<int>)
  {
    [b0 / 4, (b0 % 4) * 16, Pad, Pad]
  }

  /** The symbols of the encoding, four per started group of three bytes. */
  function Symbols(data: seq<byte>): (s: seq<int>)
    ensures |s| == 4 * ((|data| + 2) / 3)
    ensures AllSymbols(s)
  {
    if |data| >= 3 then
      var head, tail := Group3(data[0], data[1], data[2]), Symbols(data[3..]);
      assert forall i :: 4 <= i < |head + tail| ==> (head + tail)[i] == tail[i - 4];
      head + tail
    else if |data| == 2 then Group2(data[0], data[1])
    else if |data| == 1 then Group1(data[0])
    else []
  }

  /** Symbols to text, one character each. */
  function ToText(s: seq<int>): (t: string)
    requires AllSymbols(s)
    ensures |t| == |s|
  {
    seq(|s|, i requires 0 <= i < |s| => CharOf(s[i]))
  }

  /** `base64.b64encode(data).decode('utf-8')`. */
  function Encode(data: seq<byte>): (t: string)
    ensures |t| == 4 * ((|data| + 2) / 3)
  {
    ToText(Symbols(data))
  }

  /** Text to symbols; `None` if some character is neither in the alphabet nor `=`. */
  function FromText(t: string): (r: Option<seq<int>>)
    ensures r.Some? ==> |r.value| == |t| && AllSymbols(r.value)
  {
    if forall i :: 0 <= i < |t| ==> SymbolOf(t[i]).Some? then
      Some(seq(|t|, i requires 0 <= i < |t| => SymbolOf(t[i]).value))
    else None
  }

  /** A group of four 6-bit values, no padding, becomes three bytes. */
  function Ungroup3(q: seq<int>): (r: Option<seq<byte>>)
    requires |q| == 4 && AllSymbols(q)
  {
    if q[0] < Pad && q[1] < Pad && q[2] < Pad && q[3] < Pad then
      Some([q[0] * 4 + q[1] / 16, (q[1] % 16) * 16 + q[2] / 4, (q[2] % 4) * 64 + q[3]])
    else None
  }

  /**
   * A final group, which may end in one or two pads. Bits that the padding
   * says are unused must be zero, so that only canonical text decodes
   * (section 3.5 of RFC 4648).
   */
  function UngroupLast(q: seq<int>): (r: Option<seq<byte>>)
    requires |q| == 4 && AllSymbols(q)
  {
    if q[2] == Pad && q[3] == Pad then
      if q[0] < Pad && q[1] < Pad && q[1] % 16 == 0 then Some([q[0] * 4 + q[1] / 16]) else None
    else if q[3] == Pad then
      if q[0] < Pad && q[1] < Pad && q[2] < Pad && q[2] % 4 == 0
      then Some([q[0] * 4 + q[1] / 16, (q[1] % 16) * 16 + q[2] / 4])
      else None
    else Ungroup3(q)
  }

  /** Symbols back to bytes; `None` unless they are groups of four with padding only at the end. */
  function FromSymbols(s: seq<int>): (r: Option<seq<byte>>)
    requires AllSymbols(s)
    decreases |s|
  {
    if s == [] then Some([])
    else if |s| < 4 then None
    else if |s| == 4 then UngroupLast(s)
    else
      match (Ungroup3(s[..4]), FromSymbols(s[4..]))
      case (Some(head), Some(tail)) => Some(head + tail)
      case _ => None
  }

  /** Strict decoding: `None` for text that `Encode` cannot produce. */
  function Decode(t: string): (r: Option<seq<byte>>)
  {
    match FromText(t)
    case None => None
    case Some(s) => FromSymbols(s)
  }

  /** Regrouping four 6-bit values into three bytes and back is the identity. */
  lemma RegroupBits(c0: int, c1: int, c2: int, c3: int)
    requires 0 <= c0 < 64 && 0 <= c1 < 64 && 0 <= c2 < 64 && 0 <= c3 < 64
    ensures var b0, b1, b2 := c0 * 4 + c1 / 16, (c1 % 16) * 16 + c2 / 4, (c2 % 4) * 64 + c3;
      && 0 <= b0 < 256 && 0 <= b1 < 256 && 0 <= b2 < 256
      && b0 / 4 == c0 && (b0 % 4) * 16 + b1 / 16 == c1
      && (b1 % 16) * 4 + b2 / 64 == c2 && b2 % 64 == c3
  {
    var b0, b1, b2 := c0 * 4 + c1 / 16, (c1 % 16) * 16 + c2 / 4, (c2 % 4) * 64 + c3;
    assert b0 / 4 == c0 && b0 % 4 == c1 / 16;
    assert b1 / 16 == c1 % 16 && b1 % 16 == c2 / 4;
    assert b2 / 64 == c2 % 4 && b2 % 64 == c3;
  }

  /** Splitting three bytes into 6-bit values and joining them again is the identity. */
  lemma SplitBits(b0: byte, b1: byte, b2: byte)
    ensures var c0, c1, c2, c3 := b0 / 4, (b0 % 4) * 16 + b1 / 16, (b1 % 16) * 4 + b2 / 64, b2 % 64;
      && 0 <= c0 < 64 && 0 <= c1 < 64 && 0 <= c2 < 64 && 0 <= c3 < 64
      && c0 * 4 + c1 / 16 == b0 && (c1 % 16) * 16 + c2 / 4 == b1 && (c2 % 4) * 64 + c3 == b2
  {
    var c0, c1, c2, c3 := b0 / 4, (b0 % 4) * 16 + b1 / 16, (b1 % 16) * 4 + b2 / 64, b2 % 64;
    assert c1 / 16 == b0 % 4 && c1 % 16 == b1 / 16;
    assert c2 / 4 == b1 % 16 && c2 % 4 == b2 / 64;
  }

  /** A full group decodes to its three bytes, also as the last group. */
  lemma Group3RoundTrip(b0: byte, b1: byte, b2: byte)
    ensures Ungroup3(Group3(b0, b1, b2)) == Some([b0, b1, b2])
    ensures UngroupLast(Group3(b0, b1, b2)) == Some([b0, b1, b2])
  {
    SplitBits(b0, b1, b2);
  }

  /** A final group of two bytes decodes to them. */
  lemma Group2RoundTrip(b0: byte, b1: byte)
    ensures UngroupLast(Group2(b0, b1)) == Some([b0, b1])
  {
    SplitBits(b0, b1, 0);
  }

  /** A final single byte decodes to it. */
  lemma Group1RoundTrip(b0: byte)
    ensures UngroupLast(Group1(b0)) == Some([b0])
  {
    SplitBits(b0, 0, 0);
  }

  /** Decoding the symbols of the data gives back the data. */
  lemma {:induction false} SymbolsRoundTrip(data: seq<byte>)
    ensures FromSymbols(Symbols(data)) == Some(data)
    decreases |data|
  {
    var s := Symbols(data);
    if |data| >= 3 {
      Group3RoundTrip(data[0], data[1], data[2]);
      var head := Group3(data[0], data[1], data[2]);
      assert s == head + Symbols(data[3..]);
      assert data[..3] == [data[0], data[1], data[2]];
      if |data| == 3 {
        assert data[3..] == [] && s == head && data[..3] == data;
      } else {
        SymbolsRoundTrip(data[3..]);
        assert s[..4] == head && s[4..] == Symbols(data[3..]);
        assert data == data[..3] + data[3..];
      }
    } else if |data| == 2 {
      Group2RoundTrip(data[0], data[1]);
      assert data == [data[0], data[1]];
    } else if |data| == 1 {
      Group1RoundTrip(data[0]);
      assert data == [data[0]];
    }
  }

  /** A full group that decodes is the group of its three bytes. */
  lemma Ungroup3Canonical(q: seq<int>)
    requires |q| == 4 && AllSymbols(q) && Ungroup3(q).Some?
    ensures |Ungroup3(q).value| == 3
    ensures Group3(Ungroup3(q).value[0], Ungroup3(q).value[1], Ungroup3(q).value[2]) == q
  {
    RegroupBits(q[0], q[1], q[2], q[3]);
  }

  /** Symbols that decode are the symbols of what they decode to. */
  lemma {:induction false} SymbolsCanonical(s: seq<int>)
    requires AllSymbols(s) && FromSymbols(s).Some?
    ensures Symbols(FromSymbols(s).value) == s
    decreases |s|
  {
    if |s| == 4 {
      LastGroupCanonical(s);
    } else if |s| > 4 {
      var q := s[..4];
      var head, tail := Ungroup3(q).value, FromSymbols(s[4..]).value;
      SymbolsCanonical(s[4..]);
      Ungroup3Canonical(q);
      var data := head + tail;
      assert data[0] == head[0] && data[1] == head[1] && data[2] == head[2];
      assert data[3..] == tail;
      assert s == q + s[4..];
    }
  }

  /** A final group with two pads that decodes is the group of its one byte. */
  lemma Group1Canonical(q: seq<int>)
    requires |q| == 4 && AllSymbols(q) && q[2] == Pad && q[3] == Pad && UngroupLast(q).Some?
    ensures |UngroupLast(q).value| == 1 && Group1(UngroupLast(q).value[0]) == q
  {
    RegroupBits(q[0], q[1], 0, 0);
  }

  /** A final group with one pad that decodes is the group of its two bytes. */
  lemma Group2Canonical(q: seq<int>)
    requires |q| == 4 && AllSymbols(q) && q[2] != Pad && q[3] == Pad && UngroupLast(q).Some?
    ensures |UngroupLast(q).value| == 2 && Group2(UngroupLast(q).value[0], UngroupLast(q).value[1]) == q
  {
    RegroupBits(q[0], q[1], q[2], 0);
  }

  /** A final group that decodes is the group of its bytes. */
  lemma LastGroupCanonical(q: seq<int>)
    requires |q| == 4 && AllSymbols(q) && UngroupLast(q).Some?
    ensures Symbols(UngroupLast(q).value) == q
  {
    var d := UngroupLast(q).value;
    if q[2] == Pad && q[3] == Pad {
      Group1Canonical(q);
      assert Symbols(d) == Group1(d[0]);
    } else if q[3] == Pad {
      Group2Canonical(q);
      assert Symbols(d) == Group2(d[0], d[1]);
    } else {
      Ungroup3Canonical(q);
      assert d[3..] == [];
      assert Symbols(d) == Group3(d[0], d[1], d[2]) + Symbols([]);
    }
  }

  /** Reading back the text of symbols gives the symbols. */
  lemma TextRoundTrip(s: seq<int>)
    requires AllSymbols(s)
    ensures FromText(ToText(s)) == Some(s)
  {
    var t := ToText(s);
    forall i | 0 <= i < |s|
      ensures SymbolOf(t[i]) == Some(s[i])
    {
      assert t[i] == CharOf(s[i]);
      SymbolOfCharOf(s[i]);
    }
    assert seq(|t|, i requires 0 <= i < |t| => SymbolOf(t[i]).value) == s;
  }

  /** Text that reads as symbols is the text of those symbols. */
  lemma TextCanonical(t: string)
    requires FromText(t).Some?
    ensures ToText(FromText(t).value) == t
  {
    var s := FromText(t).value;
    assert forall i :: 0 <= i < |t| ==> s[i] == SymbolOf(t[i]).value;
    forall i | 0 <= i < |t|
      ensures ToText(s)[i] == t[i]
    {
      CharOfSymbolOf(t[i]);
    }
    assert ToText(s) == t;
  }

  /** Every byte sequence decodes back from its encoding. */
  lemma DecodeEncode(data: seq<byte>)
    ensures Decode(Encode(data)) == Some(data)
  {
    TextRoundTrip(Symbols(data));
    SymbolsRoundTrip(data);
  }

  /** Every text that decodes is the encoding of what it decodes to. */
  lemma EncodeDecode(t: string)
    requires Decode(t).Some?
    ensures Encode(Decode(t).value) == t
  {
    var s := FromText(t).value;
    SymbolsCanonical(s);
    TextCanonical(t);
  }

  /** Padding may appear only in the last two positions of the text. */
  ghost predicate PaddedAtEnd(t: string)
  {
    forall i :: 0 <= i < |t| && t[i] == '=' ==> i >= |t| - 2
  }

  /** A full group holds no pad. */
  lemma Group3Unpadded(b0: byte, b1: byte, b2: byte)
    ensures forall i :: 0 <= i < 4 ==> Group3(b0, b1, b2)[i] < Pad
  {
    assert (b0 % 4) * 16 + b1 / 16 <= 3 * 16 + 15;
    assert (b1 % 16) * 4 + b2 / 64 <= 15 * 4 + 3;
  }

  /** Prefixing a group without pads keeps pads at the end, and keeps a pad-free tail pad-free. */
  lemma PadsAfterFullGroup(head: seq<int>, tail: seq<int>)
    requires |head| == 4 && forall k :: 0 <= k < 4 ==> head[k] < Pad
    requires forall i :: 0 <= i < |tail| && tail[i] == Pad ==> i >= |tail| - 2
    ensures forall i :: 0 <= i < |head + tail| && (head + tail)[i] == Pad ==> i >= |head + tail| - 2
    ensures (forall i :: 0 <= i < |tail| ==> tail[i] != Pad) ==> forall i :: 0 <= i < |head + tail| ==> (head + tail)[i] != Pad
  {
    forall i | 4 <= i < |head + tail|
      ensures (head + tail)[i] == tail[i - 4]
    {
    }
  }

  /** Pads occupy only the last two symbol positions, and none when the length is a multiple of three. */
  lemma {:induction false} SymbolsPadding(data: seq<byte>)
    ensures forall i :: 0 <= i < |Symbols(data)| && Symbols(data)[i] == Pad ==> i >= |Symbols(data)| - 2
    ensures |data| % 3 == 0 ==> forall i :: 0 <= i < |Symbols(data)| ==> Symbols(data)[i] != Pad
    decreases |data|
  {
    if |data| >= 3 {
      var head, tail := Group3(data[0], data[1], data[2]), Symbols(data[3..]);
      SymbolsPadding(data[3..]);
      Group3Unpadded(data[0], data[1], data[2]);
      PadsAfterFullGroup(head, tail);
      assert Symbols(data) == head + tail;
      assert |data| % 3 == 0 ==> |data[3..]| % 3 == 0;
    }
  }

  /**
   * The encoding uses only the 64-character alphabet and `=`; `=` appears
   * only in the last two positions, and not at all when the length of the
   * data is a multiple of three.
   */
  lemma EncodeShape(data: seq<byte>)
    ensures forall i :: 0 <= i < |Encode(data)| ==> IsAlphabetChar(Encode(data)[i]) || Encode(data)[i] == '='
    ensures PaddedAtEnd(Encode(data))
    ensures |data| % 3 == 0 ==> '=' !in Encode(data)
  {
    var s := Symbols(data);
    var t := Encode(data);
    SymbolsPadding(data);
    forall i | 0 <= i < |t|
      ensures IsAlphabetChar(t[i]) || t[i] == '='
      ensures t[i] == '=' <==> s[i] == Pad
    {
      assert t[i] == CharOf(s[i]);
      SymbolOfCharOf(s[i]);
    }
    assert PaddedAtEnd(t);
  }
}
