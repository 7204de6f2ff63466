/** Padded standard Base64 (section 4 of RFC 4648) as Go's
    `base64.StdEncoding` decodes and encodes it: `DecodeString` skips
    carriage returns and line feeds anywhere in its input, demands whole
    quanta of four symbols, accepts '=' only as the last one or two symbols
    of the final quantum, and ignores the unused low bits of the last symbol
    before padding (the decoder is not in strict mode). */
module Base64 {
  import opened Types

  const Pad: byte := 61  // '='
  const CR: byte := 13   // '\r'
  const LF: byte := 10   // '\n'

  predicate IsNewline(c: byte) {
    c == CR || c == LF
  }

  predicate NoNewlines(s: seq<byte>) {
    forall i :: 0 <= i < |s| ==> !IsNewline(s[i])
  }

  /** The 64 symbols: 'A'-'Z', 'a'-'z', '0'-'9', '+' and '/'. */
  predicate InAlphabet(c: byte) {
    65 <= c <= 90 || 97 <= c <= 122 || 48 <= c <= 57 || c == 43 || c == 47
  }

  /** The symbol that stands for the 6-bit value `v` (the encoder's table). */
  function Symbol(v: int): (c: byte)
    requires 0 <= v < 64
    ensures InAlphabet(c)
  {
    if v < 26 then (v + 65) as byte
    else if v < 52 then (v + 71) as byte
    else if v < 62 then (v - 4) as byte
    else if v == 62 then 43
    else 47
  }

  /** The 6-bit value of an alphabet symbol (the decoder's table). */
  function Value(c: byte): (v: int)
    requires InAlphabet(c)
    ensures 0 <= v < 64 && Symbol(v) == c
  {
    if 65 <= c <= 90 then c as int - 65
    else if 97 <= c <= 122 then c as int - 71
    else if 48 <= c <= 57 then c as int + 4
    else if c == 43 then 62
    else 63
  }

  lemma ValueOfSymbol(v: int)
    requires 0 <= v < 64
    ensures Value(Symbol(v)) == v
  {
  }

  /** The input with every '\r' and '\n' removed, as the decoder skips them. */
  function StripNewlines(s: seq<byte>): (r: seq<byte>)
    ensures NoNewlines(r) && |r| <= |s|
    ensures NoNewlines(s) ==> r == s
  {
    if s == [] then []
    else if IsNewline(s[0]) then StripNewlines(s[1..])
    else [s[0]] + StripNewlines(s[1..])
  }

  lemma {:induction false} StripAppend(a: seq<byte>, b: seq<byte>)
    ensures StripNewlines(a + b) == StripNewlines(a) + StripNewlines(b)
    decreases |a|
  {
    if a == [] {
      assert a + b == b;
    } else {
      assert (a + b)[1..] == a[1..] + b;
      StripAppend(a[1..], b);
    }
  }

  /** A line break anywhere in the input does not change what it decodes
      to, nor whether it decodes at all. */
  lemma DecodeSkipsNewline(before: seq<byte>, c: byte, after: seq<byte>)
    requires IsNewline(c)
    ensures Decode(before + [c] + after) == Decode(before + after)
  {
    StripAppend(before + [c], after);
    StripAppend(before, [c]);
    StripAppend(before, after);
    assert [c][1..] == [];
    assert StripNewlines([c]) == [];
    assert StripNewlines(before + [c] + after) == StripNewlines(before + after);
  }

  /** In particular, a line break after the text changes nothing. */
  lemma TrailingNewline(s: seq<byte>)
    ensures s + [LF] != s && Decode(s + [LF]) == Decode(s)
  {
    DecodeSkipsNewline(s, LF, []);
    assert s + [LF] + [] == s + [LF] && s + [] == s;
  }

  /** The first byte that symbol values `c0` and `c1` stand for. */
  function Byte0(c0: int, c1: int): byte
    requires 0 <= c0 < 64 && 0 <= c1 < 64
  {
    (c0 * 4 + c1 / 16) as byte
  }

  /** The second byte that symbol values `c1` and `c2` stand for. */
  function Byte1(c1: int, c2: int): byte
    requires 0 <= c1 < 64 && 0 <= c2 < 64
  {
    (c1 % 16 * 16 + c2 / 4) as byte
  }

  /** The third byte that symbol values `c2` and `c3` stand for. */
  function Byte2(c2: int, c3: int): byte
    requires 0 <= c2 < 64 && 0 <= c3 < 64
  {
    (c2 % 4 * 64 + c3) as byte
  }

  /** What one quantum of four symbols decodes to; `final` says that no
      quantum follows it, the only place where padding is accepted. */
  function DecodeQuantum(q: seq<byte>, final: bool): (r: Option<seq<byte>>)
    requires |q| == 4
    ensures r.Some? ==> 1 <= |r.value| <= 3
    ensures r.Some? && !final ==> |r.value| == 3
  {
    if !InAlphabet(q[0]) || !InAlphabet(q[1]) then None
    else if q[2] == Pad then
      if final && q[3] == Pad then Some([Byte0(Value(q[0]), Value(q[1]))]) else None
    else if !InAlphabet(q[2]) then None
    else if q[3] == Pad then
      if final then Some([Byte0(Value(q[0]), Value(q[1])), Byte1(Value(q[1]), Value(q[2]))])
      else None
    else if !InAlphabet(q[3]) then None
    else Some([Byte0(Value(q[0]), Value(q[1])), Byte1(Value(q[1]), Value(q[2])),
               Byte2(Value(q[2]), Value(q[3]))])
  }

  /** Decodes newline-free text quantum by quantum. A decoded text of
      `n` symbols holds between n/4*3 - 2 and n/4*3 bytes (Go's
      `DecodedLen` is the upper bound). */
  function DecodeQuanta(t: seq<byte>): (r: Option<seq<byte>>)
    ensures r.Some? ==> |t| % 4 == 0 && |r.value| <= |t| / 4 * 3
    ensures r.Some? && |t| > 0 ==> |r.value| >= |t| / 4 * 3 - 2
    decreases |t|
  {
    if |t| == 0 then Some([])
    else if |t| < 4 then None
    else
      match DecodeQuantum(t[..4], |t| == 4)
      case None => None
      case Some(head) =>
        match DecodeQuanta(t[4..])
        case None => None
        case Some(tail) => Some(head + tail)
  }

  /** `base64.StdEncoding.DecodeString`: `None` stands for a
      `CorruptInputError`. */
  function Decode(s: seq<byte>): (r: Option<seq<byte>>)
    ensures r.Some? ==> |r.value| <= |s| / 4 * 3
  {
    var t := StripNewlines(s);
    assert |t| / 4 * 3 <= |s| / 4 * 3;
    DecodeQuanta(t)
  }

  /** `b64Encoded`: the classifier that calls content "encrypted" exactly
      when it decodes as Base64. */
  predicate IsEncoded(content: seq<byte>)
    ensures IsEncoded(content) ==> |StripNewlines(content)| % 4 == 0
  {
    Decode(content).Some?
  }

  /** Declarative validity of newline-free text: whole quanta of alphabet
      symbols, where only the last two symbols may be '=', and the
      second-to-last only if the last one is too. */
  predicate WellFormed(t: seq<byte>) {
    |t| % 4 == 0 &&
    (forall i :: 0 <= i < |t| - 2 ==> InAlphabet(t[i])) &&
    (|t| > 0 ==>
      (InAlphabet(t[|t| - 2]) || (t[|t| - 2] == Pad && t[|t| - 1] == Pad)) &&
      (InAlphabet(t[|t| - 1]) || t[|t| - 1] == Pad))
  }

  /** `base64.StdEncoding.EncodedLen` for a padded encoding. */
  function EncodedLen(n: nat): nat {
    (n + 2) / 3 * 4
  }

  /** The four symbols for three whole bytes. */
  function EncodeGroup(b0: byte, b1: byte, b2: byte): seq<byte> {
    [Symbol(b0 as int / 4), Symbol(b0 as int % 4 * 16 + b1 as int / 16),
     Symbol(b1 as int % 16 * 4 + b2 as int / 64), Symbol(b2 as int % 64)]
  }

  /** The four symbols for the one or two bytes left over at the end,
      filled up with '='. */
  function EncodeTail(b: seq<byte>): seq<byte>
    requires 1 <= |b| <= 2
  {
    if |b| == 1 then
      [Symbol(b[0] as int / 4), Symbol(b[0] as int % 4 * 16), Pad, Pad]
    else
      [Symbol(b[0] as int / 4), Symbol(b[0] as int % 4 * 16 + b[1] as int / 16),
       Symbol(b[1] as int % 16 * 4), Pad]
  }

  /** `base64.StdEncoding.EncodeToString`: the encoding is exactly
      `EncodedLen` symbols long. */
  function Encode(b: seq<byte>): (r: seq<byte>)
    ensures |r| == EncodedLen(|b|)
    decreases |b|
  {
    if |b| == 0 then []
    else if |b| < 3 then EncodeTail(b)
    else EncodeGroup(b[0], b[1], b[2]) + Encode(b[3..])
  }

  /** The symbol values of an encoded group give back its bytes. */
  lemma GroupArithmetic(b0: int, b1: int, b2: int)
    requires 0 <= b0 < 256 && 0 <= b1 < 256 && 0 <= b2 < 256
    ensures Byte0(b0 / 4, b0 % 4 * 16 + b1 / 16) as int == b0
    ensures Byte1(b0 % 4 * 16 + b1 / 16, b1 % 16 * 4 + b2 / 64) as int == b1
    ensures Byte2(b1 % 16 * 4 + b2 / 64, b2 % 64) as int == b2
  {
    var c1, c2 := b0 % 4 * 16 + b1 / 16, b1 % 16 * 4 + b2 / 64;
    assert c1 / 16 == b0 % 4 && c1 % 16 == b1 / 16;
    assert c2 / 4 == b1 % 16 && c2 % 4 == b2 / 64;
  }

  lemma GroupRoundTrip(b0: byte, b1: byte, b2: byte, final: bool)
    ensures DecodeQuantum(EncodeGroup(b0, b1, b2), final) == Some([b0, b1, b2])
  {
    var q := EncodeGroup(b0, b1, b2);
    var c0, c1 := b0 as int / 4, b0 as int % 4 * 16 + b1 as int / 16;
    var c2, c3 := b1 as int % 16 * 4 + b2 as int / 64, b2 as int % 64;
    ValueOfSymbol(c0);
    ValueOfSymbol(c1);
    ValueOfSymbol(c2);
    ValueOfSymbol(c3);
    assert Value(q[0]) == c0 && Value(q[1]) == c1 && Value(q[2]) == c2 && Value(q[3]) == c3;
    assert q[2] != Pad && q[3] != Pad;
    GroupArithmetic(b0 as int, b1 as int, b2 as int);
  }

  lemma TailOneRoundTrip(b0: byte)
    ensures DecodeQuantum(EncodeTail([b0]), true) == Some([b0])
  {
    var q := EncodeTail([b0]);
    var c0, c1 := b0 as int / 4, b0 as int % 4 * 16;
    ValueOfSymbol(c0);
    ValueOfSymbol(c1);
    assert Value(q[0]) == c0 && Value(q[1]) == c1;
    GroupArithmetic(b0 as int, 0, 0);
  }

  lemma TailTwoRoundTrip(b0: byte, b1: byte)
    ensures DecodeQuantum(EncodeTail([b0, b1]), true) == Some([b0, b1])
  {
    var q := EncodeTail([b0, b1]);
    var c0, c1 := b0 as int / 4, b0 as int % 4 * 16 + b1 as int / 16;
    var c2 := b1 as int % 16 * 4;
    ValueOfSymbol(c0);
    ValueOfSymbol(c1);
    ValueOfSymbol(c2);
    assert Value(q[0]) == c0 && Value(q[1]) == c1 && Value(q[2]) == c2 + 0 / 64;
    GroupArithmetic(b0 as int, b1 as int, 0);
  }

  /** Decoding the padded tail of one or two bytes gives them back. */
  lemma {:induction false} TailRoundTrip(b: seq<byte>)
    requires 1 <= |b| <= 2
    ensures DecodeQuanta(Encode(b)) == Some(b)
  {
    if |b| == 1 {
      TailOneRoundTrip(b[0]);
      assert [b[0]] == b;
    } else {
      TailTwoRoundTrip(b[0], b[1]);
      assert [b[0], b[1]] == b;
    }
    DecodeQuantaCons(EncodeTail(b), [], b, []);
    assert EncodeTail(b) + [] == Encode(b) && b + [] == b;
  }

  /** Every encoding is newline-free, so decoding it decodes it quantum by quantum. */
  lemma {:induction false} EncodeNoNewlines(b: seq<byte>)
    ensures NoNewlines(Encode(b))
    decreases |b|
  {
    if |b| >= 3 {
      EncodeNoNewlines(b[3..]);
    }
  }

  /** Round trip: decoding an encoding gives back exactly the bytes encoded. */
  lemma {:induction false} DecodeEncode(b: seq<byte>)
    ensures Decode(Encode(b)) == Some(b)
  {
    EncodeNoNewlines(b);
    DecodeQuantaEncode(b);
  }

  /** Decoding a text that starts with a quantum decodes that quantum and
      then the rest. */
  lemma DecodeQuantaCons(q: seq<byte>, rest: seq<byte>, head: seq<byte>, tail: seq<byte>)
    requires |q| == 4
    requires DecodeQuantum(q, rest == []) == Some(head)
    requires DecodeQuanta(rest) == Some(tail)
    ensures DecodeQuanta(q + rest) == Some(head + tail)
  {
    var t := q + rest;
    assert t[..4] == q && t[4..] == rest;
  }

  /** Encoding three or more bytes starts with the group of the first three. */
  lemma EncodeCons(b: seq<byte>)
    requires |b| >= 3
    ensures Encode(b) == EncodeGroup(b[0], b[1], b[2]) + Encode(b[3..])
  {
  }

  lemma FirstThree(b: seq<byte>)
    requires |b| >= 3
    ensures b == [b[0], b[1], b[2]] + b[3..]
  {
  }

  /** One step of the round trip: if the encoding of everything after the
      first group decodes back, so does the encoding of the whole. */
  lemma DecodeEncodeStep(b: seq<byte>)
    requires |b| >= 3
    requires DecodeQuanta(Encode(b[3..])) == Some(b[3..])
    ensures DecodeQuanta(Encode(b)) == Some(b)
  {
    var rest := Encode(b[3..]);
    GroupRoundTrip(b[0], b[1], b[2], rest == []);
    DecodeQuantaCons(EncodeGroup(b[0], b[1], b[2]), rest, [b[0], b[1], b[2]], b[3..]);
    EncodeCons(b);
    FirstThree(b);
  }

  lemma {:induction false} DecodeQuantaEncode(b: seq<byte>)
    ensures DecodeQuanta(Encode(b)) == Some(b)
    decreases |b|
  {
    if |b| == 0 {
    } else if |b| < 3 {
      TailRoundTrip(b);
    } else {
      DecodeQuantaEncode(b[3..]);
      DecodeEncodeStep(b);
    }
  }

  /** Everything the encoder produces is classified as encoded. */
  lemma EncodeIsEncoded(b: seq<byte>)
    ensures IsEncoded(Encode(b))
  {
    DecodeEncode(b);
  }

  /** One quantum decodes exactly when its symbols are valid for its place:
      all four from the alphabet, or, in the final quantum, a well-formed
      padded ending. */
  lemma QuantumSucceedsIff(q: seq<byte>, final: bool)
    requires |q| == 4
    ensures DecodeQuantum(q, final).Some? <==>
      if final then WellFormed(q) else forall i :: 0 <= i < 4 ==> InAlphabet(q[i])
  {
    if final {
      assert WellFormed(q) <==>
        InAlphabet(q[0]) && InAlphabet(q[1]) &&
        (InAlphabet(q[2]) || (q[2] == Pad && q[3] == Pad)) && (InAlphabet(q[3]) || q[3] == Pad);
    }
  }

  /** Text longer than one quantum is well formed exactly when its first
      quantum is all alphabet symbols and the rest is well formed. */
  lemma WellFormedSplit(t: seq<byte>)
    requires |t| > 4
    ensures WellFormed(t) <==>
      (forall i :: 0 <= i < 4 ==> InAlphabet(t[i])) && WellFormed(t[4..])
  {
    var rest := t[4..];
    if |t| % 4 != 0 {
      return;
    }
    assert rest[|rest| - 2] == t[|t| - 2] && rest[|rest| - 1] == t[|t| - 1];
    if WellFormed(t) {
      forall i | 0 <= i < |rest| - 2 ensures InAlphabet(rest[i]) {
        assert rest[i] == t[i + 4];
      }
    }
    if (forall i :: 0 <= i < 4 ==> InAlphabet(t[i])) && WellFormed(rest) {
      forall i | 0 <= i < |t| - 2 ensures InAlphabet(t[i]) {
        if i >= 4 {
          assert t[i] == rest[i - 4];
        }
      }
    }
  }

  /** The decoder accepts newline-free text exactly when it is well formed:
      the quantum-by-quantum decoder and the declarative validity rule agree
      on every input. */
  lemma {:induction false} DecodeQuantaSucceedsIff(t: seq<byte>)
    ensures DecodeQuanta(t).Some? <==> WellFormed(t)
    decreases |t|
  {
    if |t| == 0 || |t| < 4 {
    } else if |t| == 4 {
      QuantumSucceedsIff(t[..4], true);
      assert t[..4] == t && t[4..] == [];
    } else {
      QuantumSucceedsIff(t[..4], false);
      WellFormedSplit(t);
      DecodeQuantaSucceedsIff(t[4..]);
    }
  }

  /** `b64Encoded` holds exactly when the content, line breaks removed, is
      well-formed padded Base64. */
  lemma IsEncodedIff(content: seq<byte>)
    ensures IsEncoded(content) <==> WellFormed(StripNewlines(content))
  {
    DecodeQuantaSucceedsIff(StripNewlines(content));
  }

  /** Newline-free text of one quantum decodes as that final quantum. */
  lemma DecodeSingleQuantum(q: seq<byte>)
    requires |q| == 4 && NoNewlines(q)
    ensures Decode(q) == DecodeQuantum(q, true)
  {
    assert StripNewlines(q) == q;
    assert q[..4] == q && q[4..] == [];
    assert DecodeQuanta(q[4..]) == Some([]);
    match DecodeQuantum(q, true)
    case None =>
    case Some(head) =>
      assert head + [] == head;
  }

  /** The decoder is not strict: the low four bits of the second symbol
      of a quantum padded with "==" are ignored, so different texts (for
      instance "AA==" and "AB==") decode to the same byte. */
  lemma UnusedBitsIgnored(c0: byte, c1: byte, d1: byte)
    requires InAlphabet(c0) && InAlphabet(c1) && InAlphabet(d1)
    requires Value(c1) / 16 == Value(d1) / 16
    ensures Decode([c0, c1, Pad, Pad]) == Decode([c0, d1, Pad, Pad]) == Some([Byte0(Value(c0), Value(c1))])
  {
    var t, u := [c0, c1, Pad, Pad], [c0, d1, Pad, Pad];
    assert NoNewlines(t) && NoNewlines(u);
    DecodeSingleQuantum(t);
    DecodeSingleQuantum(u);
  }

  /** Empty content decodes (to no bytes), so it counts as encoded. */
  lemma EmptyIsEncoded()
    ensures Decode([]) == Some([]) && IsEncoded([])
  {
  }

  /** `base64.StdEncoding.Encode`: fills the preallocated buffer `dst`,
      which must be exactly `EncodedLen` long, with the encoding of `src`. */
  method EncodeInto(dst: array<byte>, src: seq<byte>)
    requires dst.Length == EncodedLen(|src|)
    modifies dst
    ensures dst[..] == Encode(src)
  {
    var text := Encode(src);
    forall i | 0 <= i < dst.Length {
      dst[i] := text[i];
    }
  }
}
