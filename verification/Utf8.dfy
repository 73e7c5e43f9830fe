// The UTF-8 decoder of kernel/drivers/font.c and the text loops that consume it.
//
// Bytes are numbers here: b & 0xE0 == 0xC0 is b / 32 == 6, cp << 6 | (b & 0x3F)
// is cp * 64 + b % 64, and so on.

module Utf8 {
  import opened Words

  const FONT_INVALID := 0xFFFD

  /** A character pointer into s sees a terminator from everywhere in it. */
  predicate Terminated(s: seq<byte>) {
    s != [] && s[|s| - 1] == 0
  }

  /** The Unicode scalar values. */
  predicate Scalar(cp: nat) {
    cp < 0xD800 || 0xE000 <= cp <= 0x10_FFFF
  }

  /** Section 3 of RFC 3629. */
  function Encode(cp: nat): (r: seq<byte>)
    requires Scalar(cp)
    ensures 1 <= |r| <= 4
  {
    if cp < 0x80 then [cp]
    else if cp < 0x800 then [0xC0 + cp / 64, 0x80 + cp % 64]
    else if cp < 0x1_0000 then [0xE0 + cp / 4096, 0x80 + cp / 64 % 64, 0x80 + cp % 64]
    else [0xF0 + cp / 26_2144, 0x80 + cp / 4096 % 64, 0x80 + cp / 64 % 64, 0x80 + cp % 64]
  }

  // ----- utf8_decode ----------------------------------------------------------------------

  predicate Continues(b: byte) {
    b / 64 == 2
  }

  /** The continuation bytes a first byte asks for, or 4 if it is none. */
  function Need(b0: byte): (n: nat)
    requires b0 >= 0x80
    ensures 1 <= n <= 4
  {
    if b0 / 32 == 6 then 1 else if b0 / 16 == 14 then 2 else if b0 / 8 == 30 then 3 else 4
  }

  /** The bits the first byte contributes. */
  function Lead(b0: byte): nat
    requires b0 >= 0x80
  {
    if b0 / 32 == 6 then b0 % 32 else if b0 / 16 == 14 then b0 % 16 else b0 % 8
  }

  /** The least code point that takes n continuation bytes. */
  function Floor(n: nat): nat {
    if n == 1 then 0x80 else if n == 2 then 0x800 else 0x1_0000
  }

  /** The n bytes from p on, as long as they are continuation bytes, shifted into cp. */
  function Shifted(s: seq<byte>, p: nat, n: nat, cp: nat): (r: int)
    requires Terminated(s) && p < |s|
    decreases n
  {
    if n == 0 then cp
    else if !Continues(s[p]) then -1
    else Shifted(s, p + 1, n - 1, cp * 64 + s[p] % 64)
  }

  /** The code point at p (0 at the end, FONT_INVALID if malformed) and the position after it. */
  function Decoded(s: seq<byte>, p: nat): (nat, nat)
    requires Terminated(s) && p < |s|
  {
    var b0 := s[p];
    if b0 == 0 then (0, p)
    else if b0 < 0x80 then (b0, p + 1)
    else if Need(b0) == 4 then (FONT_INVALID, p + 1)
    else
      var n := Need(b0);
      var cp := Shifted(s, p + 1, n, Lead(b0));
      if cp < 0 then (FONT_INVALID, p + 1)
      else if cp < Floor(n) || !Scalar(cp) then (FONT_INVALID, p + n + 1)
      else (cp, p + n + 1)
  }

  /** The tests on the first byte of a sequence. */
  method Classify(b0: byte) returns (cp: nat, need: nat, min: nat)
    requires b0 >= 0x80
    ensures need == Need(b0) && (need < 4 ==> cp == Lead(b0) && min == Floor(need))
  {
    if b0 / 32 == 6 { cp, need, min := b0 % 32, 1, 0x80; }
    else if b0 / 16 == 14 { cp, need, min := b0 % 16, 2, 0x800; }
    else if b0 / 8 == 30 { cp, need, min := b0 % 8, 3, 0x1_0000; }
    else { cp, need, min := 0, 4, 0; }
  }

  /** utf8_decode on the string s at position p. */
  method Decode(s: seq<byte>, p: nat) returns (cp: nat, q: nat)
    requires Terminated(s) && p < |s|
    ensures (cp, q) == Decoded(s, p)
  {
    hide Need, Lead, Floor;
    var b0 := s[p];
    if b0 == 0 { return 0, p; }
    if b0 < 0x80 { return b0, p + 1; }
    var need, min;
    cp, need, min := Classify(b0);
    if need == 4 { return FONT_INVALID, p + 1; }
    var i := 1;
    while i <= need
      invariant 1 <= i <= need + 1 && p + i < |s|
      invariant Shifted(s, p + i, need + 1 - i, cp) == Shifted(s, p + 1, need, Lead(b0))
    {
      var b := s[p + i];
      if b == 0 || !Continues(b) { return FONT_INVALID, p + 1; }
      cp := cp * 64 + b % 64;
      i := i + 1;
    }
    if cp < min || cp > 0x10_FFFF || 0xD800 <= cp <= 0xDFFF { return FONT_INVALID, p + need + 1; }
    return cp, p + need + 1;
  }

  // ----- Encoder and decoder -----------------------------------------------------------------

  /** s has e at position p. */
  predicate At(s: seq<byte>, p: nat, e: seq<byte>) {
    p + |e| <= |s| && s[p..p + |e|] == e
  }

  lemma TwoBytes(s: seq<byte>, p: nat, a: byte, b: byte)
    requires Terminated(s) && p + 1 < |s| && s[p] == a && s[p + 1] == b && a >= 0x80 && Need(a) == 1 && Continues(b)
    ensures Shifted(s, p + 1, 1, Lead(a)) == Lead(a) * 64 + b % 64
  {
  }

  lemma ThreeBytes(s: seq<byte>, p: nat, a: byte, b: byte, c: byte)
    requires Terminated(s) && p + 2 < |s| && s[p] == a && s[p + 1] == b && s[p + 2] == c
    requires a >= 0x80 && Need(a) == 2 && Continues(b) && Continues(c)
    ensures Shifted(s, p + 1, 2, Lead(a)) == (Lead(a) * 64 + b % 64) * 64 + c % 64
  {
    var m := Lead(a) * 64 + b % 64;
    assert Shifted(s, p + 2, 1, m) == m * 64 + c % 64;
  }

  lemma FourBytes(s: seq<byte>, p: nat, a: byte, b: byte, c: byte, d: byte)
    requires Terminated(s) && p + 3 < |s| && s[p] == a && s[p + 1] == b && s[p + 2] == c && s[p + 3] == d
    requires a >= 0x80 && Need(a) == 3 && Continues(b) && Continues(c) && Continues(d)
    ensures Shifted(s, p + 1, 3, Lead(a)) == ((Lead(a) * 64 + b % 64) * 64 + c % 64) * 64 + d % 64
  {
    var m := Lead(a) * 64 + b % 64;
    var n := m * 64 + c % 64;
    assert Shifted(s, p + 3, 1, n) == n * 64 + d % 64;
    assert Shifted(s, p + 2, 2, m) == Shifted(s, p + 3, 1, n);
  }

  lemma Digits(cp: nat)
    ensures cp / 64 / 64 == cp / 4096 && cp / 4096 / 64 == cp / 26_2144
    ensures cp / 64 * 64 + cp % 64 == cp
    ensures (cp / 4096 * 64 + cp / 64 % 64) * 64 + cp % 64 == cp
    ensures ((cp / 26_2144 * 64 + cp / 4096 % 64) * 64 + cp / 64 % 64) * 64 + cp % 64 == cp
  {
    assert cp / 64 / 64 == cp / 4096;
    assert cp / 4096 / 64 == cp / 26_2144;
  }

  lemma Tail(x: nat)
    requires x < 64
    ensures Continues(0x80 + x) && (0x80 + x) % 64 == x
  {
  }

  /** A sequence that is well formed but for its value. */
  predicate Sequence(e: seq<byte>) {
    && 2 <= |e| <= 4 && e[0] >= 0x80 && Need(e[0]) == |e| - 1
    && forall i :: 0 < i < |e| ==> Continues(e[i])
  }

  /** The number such a sequence stands for. */
  function Value(e: seq<byte>): nat
    requires Sequence(e)
  {
    var v := Lead(e[0]) * 64 + e[1] % 64;
    if |e| == 2 then v else
      var w := v * 64 + e[2] % 64;
      if |e| == 3 then w else w * 64 + e[3] % 64
  }

  lemma SequenceValue(s: seq<byte>, p: nat, e: seq<byte>)
    requires Terminated(s) && Sequence(e) && At(s, p, e)
    ensures Shifted(s, p + 1, Need(s[p]), Lead(s[p])) == Value(e) && s[p] == e[0]
  {
    hide Need, Lead, Continues;
    forall i | 0 <= i < |e|
      ensures s[p + i] == e[i]
    {
      assert s[p..p + |e|][i] == e[i];
    }
    if |e| == 2 {
      TwoBytes(s, p, e[0], e[1]);
    } else if |e| == 3 {
      ThreeBytes(s, p, e[0], e[1], e[2]);
    } else {
      FourBytes(s, p, e[0], e[1], e[2], e[3]);
    }
  }

  lemma EncodeIsSequence(cp: nat)
    requires Scalar(cp) && cp >= 0x80
    ensures Sequence(Encode(cp)) && Value(Encode(cp)) == cp && Floor(|Encode(cp)| - 1) <= cp
  {
    hide Continues;
    Tail(cp % 64);
    Tail(cp / 64 % 64);
    Tail(cp / 4096 % 64);
    Digits(cp);
    var e := Encode(cp);
    if cp < 0x800 {
      assert Need(e[0]) == 1 && Lead(e[0]) == cp / 64;
    } else if cp < 0x1_0000 {
      assert Need(e[0]) == 2 && Lead(e[0]) == cp / 4096;
    } else {
      assert Need(e[0]) == 3 && Lead(e[0]) == cp / 26_2144;
    }
  }

  /** The decoder inverts the encoder on every scalar value but 0, and consumes
      exactly the encoding. */
  lemma DecodeEncoded(s: seq<byte>, p: nat, cp: nat)
    requires Terminated(s) && 0 < cp && Scalar(cp) && At(s, p, Encode(cp))
    ensures p < |s| && Decoded(s, p) == (cp, p + |Encode(cp)|)
  {
    hide Shifted, Value, Lead, Need;
    var e := Encode(cp);
    assert s[p] == s[p..p + |e|][0] == e[0];
    if cp >= 0x80 {
      EncodeIsSequence(cp);
      SequenceValue(s, p, e);
    }
  }

  lemma LeadIs(b0: byte)
    requires b0 >= 0x80
    ensures Need(b0) == 1 ==> b0 == 0xC0 + Lead(b0) && Lead(b0) < 32
    ensures Need(b0) == 2 ==> b0 == 0xE0 + Lead(b0) && Lead(b0) < 16
    ensures Need(b0) == 3 ==> b0 == 0xF0 + Lead(b0) && Lead(b0) < 8
  {
  }

  lemma ContinuesIs(b: byte)
    requires Continues(b)
    ensures b == 0x80 + b % 64
  {
  }

  lemma Undigit(x: nat, y: nat)
    requires y < 64
    ensures (x * 64 + y) / 64 == x && (x * 64 + y) % 64 == y
  {
  }

  /** A sequence in shortest form is the encoding of its value. */
  lemma ValueEncodes(e: seq<byte>)
    requires Sequence(e) && Floor(|e| - 1) <= Value(e) && Scalar(Value(e))
    ensures Encode(Value(e)) == e
  {
    hide Need, Lead, Continues;
    LeadIs(e[0]);
    ContinuesIs(e[1]);
    var a := Lead(e[0]);
    if |e| == 2 {
      EncodeTwo(a, e[1] % 64);
    } else {
      ContinuesIs(e[2]);
      if |e| == 3 {
        EncodeThree(a, e[1] % 64, e[2] % 64);
      } else {
        ContinuesIs(e[3]);
        EncodeFour(a, e[1] % 64, e[2] % 64, e[3] % 64);
      }
    }
  }

  lemma EncodeTwo(a: nat, x: nat)
    requires x < 64 && 0x80 <= a * 64 + x < 0x800
    ensures Encode(a * 64 + x) == [0xC0 + a, 0x80 + x]
  {
    Undigit(a, x);
  }

  lemma EncodeThree(a: nat, x: nat, y: nat)
    requires x < 64 && y < 64 && 0x800 <= (a * 64 + x) * 64 + y < 0x1_0000 && Scalar((a * 64 + x) * 64 + y)
    ensures Encode((a * 64 + x) * 64 + y) == [0xE0 + a, 0x80 + x, 0x80 + y]
  {
    Undigit(a, x);
    Undigit(a * 64 + x, y);
    Digits((a * 64 + x) * 64 + y);
  }

  lemma EncodeFour(a: nat, x: nat, y: nat, z: nat)
    requires x < 64 && y < 64 && z < 64
    requires 0x1_0000 <= ((a * 64 + x) * 64 + y) * 64 + z <= 0x10_FFFF
    ensures Encode(((a * 64 + x) * 64 + y) * 64 + z) == [0xF0 + a, 0x80 + x, 0x80 + y, 0x80 + z]
  {
    var w := (a * 64 + x) * 64 + y;
    Undigit(a, x);
    Undigit(a * 64 + x, y);
    Undigit(w, z);
    Digits(w);
    Digits(w * 64 + z);
  }

  /** Continuation bytes up to where the decoder got. */
  lemma {:induction false} ShiftedContinues(s: seq<byte>, p: nat, n: nat, cp: nat)
    requires Terminated(s) && p < |s| && Shifted(s, p, n, cp) >= 0
    ensures p + n < |s| && forall i :: p <= i < p + n ==> Continues(s[i])
    decreases n
  {
    if n > 0 { ShiftedContinues(s, p + 1, n - 1, cp * 64 + s[p] % 64); }
  }

  /** Whatever the decoder accepts is the encoding of what it returns, and those
      bytes are what it consumes. */
  lemma DecodedIsEncoding(s: seq<byte>, p: nat)
    requires Terminated(s) && p < |s|
    ensures var (cp, q) := Decoded(s, p);
      cp != 0 && cp != FONT_INVALID ==> Scalar(cp) && At(s, p, Encode(cp)) && q == p + |Encode(cp)|
  {
    hide Shifted, Lead, Need, Floor, Value, Encode;
    var (cp, q) := Decoded(s, p);
    if cp != 0 && cp != FONT_INVALID {
      if s[p] >= 0x80 {
        var n := Need(s[p]);
        ShiftedContinues(s, p + 1, n, Lead(s[p]));
        var e := s[p..p + n + 1];
        SequenceValue(s, p, e);
        ValueEncodes(e);
      } else {
        OneByte(cp);
      }
    }
  }

  lemma OneByte(cp: nat)
    requires cp < 0x80
    ensures Encode(cp) == [cp]
  {
  }

  /** So for a scalar value other than 0 and FONT_INVALID: it is returned exactly
      when its encoding is there. */
  lemma DecodesExactly(s: seq<byte>, p: nat, cp: nat)
    requires Terminated(s) && p < |s| && 0 < cp && cp != FONT_INVALID && Scalar(cp)
    ensures Decoded(s, p).0 == cp <==> At(s, p, Encode(cp))
  {
    hide Decoded, Encode;
    if At(s, p, Encode(cp)) { DecodeEncoded(s, p, cp); }
    DecodedIsEncoding(s, p);
  }

  /** Off the terminator the decoder advances by one to four bytes and never over it. */
  lemma Advances(s: seq<byte>, p: nat)
    requires Terminated(s) && p < |s|
    ensures var (cp, q) := Decoded(s, p);
      if s[p] == 0 then cp == 0 && q == p
      else cp != 0 && p < q <= p + 4 && q < |s| && forall i :: p <= i < q ==> s[i] != 0
  {
    if s[p] >= 0x80 && Need(s[p]) < 4 && Shifted(s, p + 1, Need(s[p]), Lead(s[p])) >= 0 {
      ShiftedContinues(s, p + 1, Need(s[p]), Lead(s[p]));
    }
  }

  /** How many continuation bytes a first byte announces. */
  function Announced(b: byte): nat {
    if 0xC0 <= b < 0xE0 then 1 else if 0xE0 <= b < 0xF0 then 2 else if 0xF0 <= b < 0xF8 then 3 else 0
  }

  /** It takes in the continuation bytes that are announced if all of them are there, whether
      or not they make a code point, and otherwise the one byte. */
  lemma Consumes(s: seq<byte>, p: nat)
    requires Terminated(s) && p < |s| && s[p] != 0
    ensures var n := Announced(s[p]);
      Decoded(s, p).1 == p + 1 + if p + n < |s| && forall i :: p < i <= p + n ==> 0x80 <= s[i] < 0xC0 then n else 0
  {
    if s[p] >= 0x80 && Need(s[p]) < 4 { ShiftedWhole(s, p + 1, Need(s[p]), Lead(s[p])); }
  }

  lemma {:induction false} ShiftedWhole(s: seq<byte>, p: nat, n: nat, cp: nat)
    requires Terminated(s) && p < |s|
    ensures Shifted(s, p, n, cp) >= 0 <==> p + n < |s| && forall i :: p <= i < p + n ==> 0x80 <= s[i] < 0xC0
    decreases n
  {
    if n > 0 && Continues(s[p]) { ShiftedWhole(s, p + 1, n - 1, cp * 64 + s[p] % 64); }
  }

  // ----- The text loops ------------------------------------------------------------------------

  /** One character as it is placed: its code point and its pen position. */
  datatype Placed = Placed(cp: nat, x: int)

  /** The code points of the string from p on. */
  function Points(s: seq<byte>, p: nat): seq<nat>
    requires Terminated(s) && p < |s|
    decreases |s| - p
  {
    Advances(s, p);
    var (cp, q) := Decoded(s, p);
    if cp == 0 then [] else [cp] + Points(s, q)
  }

  /** The loop of gfx_text_utf8, gfx_text_utf8_bg and font_text_scaled: each code
      point advances the pen by the same amount, malformed input included. */
  method Text(s: seq<byte>, x: int, advance: nat) returns (placed: seq<Placed>, width: int)
    requires Terminated(s)
    ensures |placed| == |Points(s, 0)| && width == advance * |placed|
    ensures forall i :: 0 <= i < |placed| ==> placed[i] == Placed(Points(s, 0)[i], x + i * advance)
  {
    hide Decoded, Points;
    placed := [];
    var pen, p := x, 0;
    ghost var done: seq<nat> := [];
    while true
      invariant p < |s| && done + Points(s, p) == Points(s, 0) && |done| == |placed| && pen == x + |placed| * advance
      invariant forall i :: 0 <= i < |placed| ==> placed[i] == Placed(done[i], x + i * advance)
      decreases |s| - p
    {
      PointsStep(s, p);
      var cp, q := Decode(s, p);
      if cp == 0 { break; }
      assert done + ([cp] + Points(s, q)) == done + [cp] + Points(s, q);
      assert (|placed| + 1) * advance == |placed| * advance + advance;
      placed := placed + [Placed(cp, pen)];
      done := done + [cp];
      pen := pen + advance;
      p := q;
    }
    assert done + [] == done;
    width := pen - x;
  }

  lemma PointsStep(s: seq<byte>, p: nat)
    requires Terminated(s) && p < |s|
    ensures var (cp, q) := Decoded(s, p);
      (cp != 0 ==> p < q < |s|) && Points(s, p) == if cp == 0 then [] else [cp] + Points(s, q)
  {
    hide Decoded;
    Advances(s, p);
  }

  function EncodeAll(cps: seq<nat>): seq<byte>
    requires forall i :: 0 <= i < |cps| ==> Scalar(cps[i])
  {
    if cps == [] then [] else Encode(cps[0]) + EncodeAll(cps[1..])
  }

  /** On well-formed text the loops see exactly the code points that were encoded. */
  lemma {:induction false} TextRoundTrip(s: seq<byte>, p: nat, cps: seq<nat>)
    requires forall i :: 0 <= i < |cps| ==> Scalar(cps[i]) && cps[i] != 0
    requires p <= |s| && s[p..] == EncodeAll(cps) + [0]
    ensures Terminated(s) && p < |s| && Points(s, p) == cps
    decreases |cps|
  {
    hide Encode, Decoded, Scalar, Points;
    assert s[p..][|s| - p - 1] == 0 && Terminated(s);
    PointsStep(s, p);
    Advances(s, p);
    if cps != [] {
      var e := Encode(cps[0]);
      Split(s, p, e, EncodeAll(cps[1..]) + [0]);
      DecodeEncoded(s, p, cps[0]);
      TextRoundTrip(s, p + |e|, cps[1..]);
    }
  }

  lemma Split(s: seq<byte>, p: nat, e: seq<byte>, rest: seq<byte>)
    requires p <= |s| && s[p..] == e + rest
    ensures At(s, p, e) && s[p + |e|..] == rest
  {
    assert s[p..p + |e|] == s[p..][..|e|];
    assert s[p + |e|..] == s[p..][|e|..];
  }
}
