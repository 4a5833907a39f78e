/** The UTF-8 codec: permissive decoding, strict encoding, and the texts on which they are inverse. */
module Utf8 {
  import opened Wrappers

  const MAX_CPT: nat := 0x10FFFF

  /** Sequence length announced by a leading byte; 1 for a continuation byte. */
  function LenUtf8(b: byte): (n: nat)
    ensures 1 <= n <= 4
  {
    if b < 0xC0 then 1 else if b < 0xE0 then 2 else if b < 0xF0 then 3 else 4
  }

  predicate IsContinuation(b: byte) {
    0x80 <= b < 0xC0
  }

  /** The payload of a continuation byte. */
  function Low6(b: byte): (v: int)
    ensures 0 <= v < 64
  {
    b % 64
  }

  /** cpt_to_utf8 where it does not throw. */
  function Encode(c: nat): (s: seq<byte>)
    requires c <= MAX_CPT
    ensures 1 <= |s| <= 4
    ensures |s| == LenUtf8(s[0]) && !IsContinuation(s[0])
    ensures forall i :: 1 <= i < |s| ==> IsContinuation(s[i])
  {
    if c <= 0x7F then [c]
    else if c <= 0x7FF then [0xC0 + c / 64, 0x80 + c % 64]
    else if c <= 0xFFFF then [0xE0 + c / 4096, 0x80 + c / 64 % 64, 0x80 + c % 64]
    else [0xF0 + c / 262144, 0x80 + c / 4096 % 64, 0x80 + c / 64 % 64, 0x80 + c % 64]
  }

  datatype Decoded = Decoded(cpt: nat, offset: nat)

  /** cpt_from_utf8: None stands for the exception on malformed input. */
  function CptFromUtf8(utf8: seq<byte>, offset: nat): (r: Option<Decoded>)
    requires offset < |utf8|
    ensures r.Some? ==> offset < r.value.offset <= |utf8| && r.value.cpt <= 0x1FFFFF
  {
    var b0: int := utf8[offset];
    if b0 < 0x80 then
      Some(Decoded(b0, offset + 1))
    else if 0xC0 <= b0 < 0xE0 then
      if offset + 1 >= |utf8| || !IsContinuation(utf8[offset + 1]) then None
      else Some(Decoded(b0 % 32 * 64 + Low6(utf8[offset + 1]), offset + 2))
    else if 0xE0 <= b0 < 0xF0 then
      if offset + 2 >= |utf8| || !IsContinuation(utf8[offset + 1]) || !IsContinuation(utf8[offset + 2]) then None
      else Some(Decoded(b0 % 16 * 4096 + Low6(utf8[offset + 1]) * 64 + Low6(utf8[offset + 2]), offset + 3))
    else if 0xF0 <= b0 < 0xF8 then
      if offset + 3 >= |utf8| || !IsContinuation(utf8[offset + 1]) || !IsContinuation(utf8[offset + 2])
         || !IsContinuation(utf8[offset + 3]) then None
      else Some(Decoded(b0 % 8 * 262144 + Low6(utf8[offset + 1]) * 4096 + Low6(utf8[offset + 2]) * 64
                        + Low6(utf8[offset + 3]), offset + 4))
    else None
  }

  /** RFC 3629, section 3: the bytes of each length, most significant bits first; nothing above 0x10FFFF is valid. */
  lemma EncodeBytes(c: nat)
    ensures AllValid([c]) <==> c <= 0x10FFFF
    ensures c < 0x80 ==> Encode(c) == [c]
    ensures 0x80 <= c < 0x800 ==> Encode(c) == [0xC0 + c / 0x40, 0x80 + c % 0x40]
    ensures 0x800 <= c < 0x1_0000 ==> Encode(c) == [0xE0 + c / 0x1000, 0x80 + c / 0x40 % 0x40, 0x80 + c % 0x40]
    ensures 0x1_0000 <= c <= 0x10FFFF ==>
      Encode(c) == [0xF0 + c / 0x4_0000, 0x80 + c / 0x1000 % 0x40, 0x80 + c / 0x40 % 0x40, 0x80 + c % 0x40]
  {
    assert AllValid([c]) ==> [c][0] <= MAX_CPT;
  }

  /** One codepoint of each length: "A", U+00E9, U+20AC, U+1F600. */
  lemma EncodeExamples()
    ensures Encode(0x41) == [0x41] && Encode(0xE9) == [0xC3, 0xA9]
    ensures Encode(0x20AC) == [0xE2, 0x82, 0xAC] && Encode(0x1F600) == [0xF0, 0x9F, 0x98, 0x80]
  {
  }

  /** All codepoints from offset on. */
  function DecodeFrom(utf8: seq<byte>, offset: nat): Option<seq<nat>>
    requires offset <= |utf8|
    decreases |utf8| - offset
  {
    if offset == |utf8| then Some([]) else
      match CptFromUtf8(utf8, offset)
      case None => None
      case Some(d) =>
        match DecodeFrom(utf8, d.offset)
        case None => None
        case Some(rest) => Some([d.cpt] + rest)
  }

  predicate AllValid(cs: seq<nat>) {
    forall i :: 0 <= i < |cs| ==> cs[i] <= MAX_CPT
  }

  function EncodeAll(cs: seq<nat>): seq<byte>
    requires AllValid(cs)
  {
    if cs == [] then [] else EncodeAll(cs[..|cs| - 1]) + Encode(cs[|cs| - 1])
  }

  /** Texts that are a concatenation of encoded codepoints. */
  ghost predicate Canonical(text: seq<byte>) {
    exists cs :: AllValid(cs) && text == EncodeAll(cs)
  }

  method CptsFromUtf8(utf8: seq<byte>) returns (cs: Option<seq<nat>>)
    ensures cs == DecodeFrom(utf8, 0)
  {
    var out := [];
    var i := 0;
    assert forall rest: seq<nat> :: [] + rest == rest;
    while i < |utf8|
      invariant i <= |utf8|
      invariant DecodeFrom(utf8, 0) ==
        match DecodeFrom(utf8, i) case None => None case Some(rest) => Some(out + rest)
      decreases |utf8| - i
    {
      var d := CptFromUtf8(utf8, i);
      if d.None? {
        return None;
      }
      assert DecodeFrom(utf8, d.value.offset).Some? ==>
        out + ([d.value.cpt] + DecodeFrom(utf8, d.value.offset).value) ==
        out + [d.value.cpt] + DecodeFrom(utf8, d.value.offset).value;
      out := out + [d.value.cpt];
      i := d.value.offset;
    }
    assert out + [] == out;
    return Some(out);
  }

  lemma {:induction false} EncodeAllConcat(a: seq<nat>, b: seq<nat>)
    requires AllValid(a) && AllValid(b)
    ensures AllValid(a + b) && EncodeAll(a + b) == EncodeAll(a) + EncodeAll(b)
  {
    hide Encode, EncodeAll;
    EncodeAllNone();
    if b == [] {
      assert a + b == a;
    } else {
      var b' := b[..|b| - 1];
      EncodeAllConcat(a, b');
      assert (a + b)[..|a + b| - 1] == a + b';
      EncodeAllStep(b);
      EncodeAllStep(a + b);
    }
  }

  lemma EncodeAllStep(cs: seq<nat>)
    requires AllValid(cs) && cs != []
    ensures EncodeAll(cs) == EncodeAll(cs[..|cs| - 1]) + Encode(cs[|cs| - 1])
  {
  }

  lemma EncodeAllOne(c: nat)
    requires c <= MAX_CPT
    ensures EncodeAll([c]) == Encode(c)
  {
    assert EncodeAll([]) == [];
  }

  lemma Digits(c: nat)
    requires c <= MAX_CPT
    ensures c <= 0x7FF ==> (0xC0 + c / 64) % 32 == c / 64
    ensures c <= 0xFFFF ==> (0xE0 + c / 4096) % 16 == c / 4096
    ensures (0xF0 + c / 262144) % 8 == c / 262144
    ensures (0x80 + c % 64) % 64 == c % 64
    ensures (0x80 + c / 64 % 64) % 64 == c / 64 % 64
    ensures (0x80 + c / 4096 % 64) % 64 == c / 4096 % 64
  {
  }

  lemma DigitsSum(c: nat)
    ensures c / 64 * 64 + c % 64 == c
    ensures c / 4096 * 4096 + c / 64 % 64 * 64 + c % 64 == c
    ensures c / 262144 * 262144 + c / 4096 % 64 * 4096 + c / 64 % 64 * 64 + c % 64 == c
  {
    assert c / 4096 == c / 64 / 64 && c / 262144 == c / 4096 / 64;
  }

  /** Decoding undoes one encoding, wherever it stands in a text. */
  lemma DecodesEncoded(utf8: seq<byte>, offset: nat, c: nat)
    requires c <= MAX_CPT && offset + |Encode(c)| <= |utf8|
    requires utf8[offset..offset + |Encode(c)|] == Encode(c)
    ensures CptFromUtf8(utf8, offset) == Some(Decoded(c, offset + |Encode(c)|))
  {
    var e := Encode(c);
    var slice := utf8[offset..offset + |e|];
    assert utf8[offset] == slice[0];
    assert |e| > 1 ==> utf8[offset + 1] == slice[1];
    assert |e| > 2 ==> utf8[offset + 2] == slice[2];
    assert |e| > 3 ==> utf8[offset + 3] == slice[3];
    Digits(c);
    DigitsSum(c);
  }

  lemma {:induction false} DecodesAllEncoded(before: seq<byte>, cs: seq<nat>)
    requires AllValid(cs)
    ensures DecodeFrom(before + EncodeAll(cs), |before|) == Some(cs)
    decreases |cs|
  {
    hide CptFromUtf8, Encode;
    if cs != [] {
      var first, rest := cs[0], cs[1..];
      assert cs == [first] + rest;
      EncodeAllConcat([first], rest);
      EncodeAllOne(first);
      var text := before + EncodeAll(cs);
      assert text == before + Encode(first) + EncodeAll(rest);
      DecodesEncoded(text, |before|, first);
      DecodesAllEncoded(before + Encode(first), rest);
    }
  }

  /** The codec round trip: decode(encode(cs)) == cs. */
  lemma DecodeEncode(cs: seq<nat>)
    requires AllValid(cs)
    ensures DecodeFrom(EncodeAll(cs), 0) == Some(cs)
  {
    DecodesAllEncoded([], cs);
    assert [] + EncodeAll(cs) == EncodeAll(cs);
  }

  /** Re-encoding what was decoded never takes more bytes than were read. */
  lemma {:induction false} ReencodingShrinks(utf8: seq<byte>, offset: nat)
    requires offset <= |utf8|
    requires DecodeFrom(utf8, offset).Some? && AllValid(DecodeFrom(utf8, offset).value)
    ensures |EncodeAll(DecodeFrom(utf8, offset).value)| <= |utf8| - offset
    decreases |utf8| - offset
  {
    if offset < |utf8| {
      var d := CptFromUtf8(utf8, offset).value;
      var rest := DecodeFrom(utf8, d.offset).value;
      var cs := DecodeFrom(utf8, offset).value;
      assert cs == [d.cpt] + rest;
      assert d.cpt == cs[0] <= MAX_CPT;
      assert AllValid(rest) by { assert forall i :: 0 <= i < |rest| ==> rest[i] == cs[i + 1]; }
      ReencodingShrinks(utf8, d.offset);
      EncodeAllConcat([d.cpt], rest);
      EncodeAllOne(d.cpt);
    }
  }

  /** Canonical texts are exactly those that decode and re-encode to themselves. */
  lemma CanonicalIff(text: seq<byte>)
    ensures Canonical(text) <==>
            var cs := DecodeFrom(text, 0); cs.Some? && AllValid(cs.value) && EncodeAll(cs.value) == text
  {
    if Canonical(text) {
      var cs :| AllValid(cs) && text == EncodeAll(cs);
      DecodeEncode(cs);
    }
  }

  /** The decoder accepts more: an over-long form of "A" decodes, but is not canonical. */
  lemma OverlongDecodes(text: seq<byte>)
    requires text == [0xC1, 0x81]
    ensures DecodeFrom(text, 0) == Some([0x41]) && !Canonical(text)
  {
    assert CptFromUtf8(text, 0) == Some(Decoded(0x41, 2));
    assert DecodeFrom(text, 2) == Some([]);
    var none: seq<nat> := [];
    assert [0x41] + none == [0x41];
    CanonicalIff(text);
    EncodeAllOne(0x41);
  }

  lemma EncodeAllLast(front: seq<nat>, c: nat)
    requires AllValid(front) && c <= MAX_CPT
    ensures AllValid(front + [c]) && EncodeAll(front + [c]) == EncodeAll(front) + Encode(c)
  {
    hide Encode, EncodeAll;
    EncodeAllOne(c);
    EncodeAllConcat(front, [c]);
  }

  /** A position that is not at a continuation byte separates whole codepoints. */
  lemma {:induction false} SplitAtBoundary(cs: seq<nat>, p: nat) returns (k: nat)
    requires AllValid(cs) && p <= |EncodeAll(cs)|
    requires p == |EncodeAll(cs)| || !IsContinuation(EncodeAll(cs)[p])
    ensures k <= |cs|
    ensures EncodeAll(cs)[..p] == EncodeAll(cs[..k]) && EncodeAll(cs)[p..] == EncodeAll(cs[k..])
  {
    hide Encode, EncodeAll;
    EncodeAllNone();
    if p == |EncodeAll(cs)| {
      k := |cs|;
      assert cs[..k] == cs && cs[k..] == [];
    } else {
      var n := |cs| - 1;
      var front, c := cs[..n], cs[n];
      assert cs == front + [c];
      EncodeAllLast(front, c);
      if p > |EncodeAll(front)| {
        assert false;
      }
      k := SplitAtBoundary(front, p);
      EncodeAllLast(front[k..], c);
      assert cs[k..] == front[k..] + [c] && cs[..k] == front[..k];
      assert (EncodeAll(front) + Encode(c))[p..] == EncodeAll(front)[p..] + Encode(c);
    }
  }

  lemma EncodeAllNone()
    ensures EncodeAll([]) == []
  {
  }
}
