/** The byte <-> visible codepoint map of byte-level BPE. */
module ByteMaps {
  import opened Wrappers
  import opened Utf8

  /** Bytes that stand for themselves. */
  predicate Visible(b: int) {
    0x21 <= b <= 0x7E || 0xA1 <= b <= 0xAC || 0xAE <= b <= 0xFF
  }

  function HiddenBelow(b: nat): nat {
    if b == 0 then 0 else HiddenBelow(b - 1) + if Visible(b - 1) then 0 else 1
  }

  /** The definition: hidden bytes are numbered from 256 in increasing order. */
  function ByteCpt(b: byte): nat {
    if Visible(b) then b else 256 + HiddenBelow(b)
  }

  lemma {:induction false} HiddenBelowClosed(b: nat)
    requires b <= 256
    ensures HiddenBelow(b) ==
            if b <= 0x21 then b else if b <= 0x7F then 0x21
            else if b <= 0xA1 then b - 0x5E else if b <= 0xAD then 0x43 else 0x44
  {
    if b > 0 {
      HiddenBelowClosed(b - 1);
    }
  }

  /** The mapped codepoints are distinct and end at 0x143, so a glyph has one or two bytes. */
  lemma ByteCptInjective(a: byte, b: byte)
    ensures ByteCpt(a) == ByteCpt(b) ==> a == b
    ensures 0x21 <= ByteCpt(a) <= 0x143 && ByteCpt(0xAD) == 0x143
  {
    HiddenBelowClosed(a);
    HiddenBelowClosed(b);
    HiddenBelowClosed(0xAD);
  }

  /** Some values: printable ASCII stays, the space becomes U+0120 and the newline U+010A. */
  lemma ByteCptExamples()
    ensures ByteCpt(0x21) == 0x21 && ByteCpt(0x41) == 0x41 && ByteCpt(0x7E) == 0x7E
    ensures ByteCpt(0x00) == 0x100 && ByteCpt(0x0A) == 0x10A && ByteCpt(0x20) == 0x120 && ByteCpt(0x7F) == 0x121
    ensures ByteCpt(0xA0) == 0x142 && ByteCpt(0xA1) == 0xA1 && ByteCpt(0xAD) == 0x143 && ByteCpt(0xFF) == 0xFF
  {
    HiddenBelowClosed(0x0A);
    HiddenBelowClosed(0x20);
    HiddenBelowClosed(0x7F);
    HiddenBelowClosed(0xA0);
    HiddenBelowClosed(0xAD);
  }

  function Glyph(b: byte): (g: seq<byte>)
    ensures 1 <= |g| <= 2
  {
    ByteCptInjective(b, b);
    Encode(ByteCpt(b))
  }

  /** The table built once per process. */
  class ByteMap {
    const fwd: seq<seq<byte>>
    const cpt: seq<nat>
    const inv: map<nat, byte>

    ghost predicate Valid() {
      && |fwd| == |cpt| == 256
      && (forall b: byte :: cpt[b] == ByteCpt(b) && fwd[b] == Glyph(b))
      && (forall b: byte :: ByteCpt(b) in inv)
      && (forall c :: c in inv ==> ByteCpt(inv[c]) == c)
    }

    constructor ()
      ensures Valid()
    {
      var bs, cs := ByteLists();
      var f, c, m := seq(256, _ => []), seq(256, _ => 0), map[];
      for i := 0 to |bs|
        invariant |f| == |c| == 256
        invariant forall j :: 0 <= j < i ==> c[bs[j]] == ByteCpt(bs[j]) && f[bs[j]] == Glyph(bs[j])
        invariant forall j :: 0 <= j < i ==> ByteCpt(bs[j]) in m
        invariant forall k :: k in m ==> ByteCpt(m[k]) == k
      {
        ByteCptInjective(bs[i], bs[i]);
        f := f[bs[i] := Encode(cs[i])];
        c := c[bs[i] := cs[i]];
        if cs[i] !in m {
          m := m[cs[i] := bs[i]];
        }
      }
      forall b: byte ensures c[b] == ByteCpt(b) && f[b] == Glyph(b) && ByteCpt(b) in m {
        assert b in bs;
      }
      fwd, cpt, inv := f, c, m;
    }

    /** unicode_to_byte: the byte of a one-glyph string, -1 for anything else. */
    function UnicodeToByte(utf8: seq<byte>): int {
      if utf8 == [] then -1 else
        match CptFromUtf8(utf8, 0)
        case None => -1
        case Some(d) =>
          if d.offset != |utf8| then -1
          else if d.cpt in inv then inv[d.cpt] else -1
    }

    /** It returns b exactly on strings that are one codepoint long and decode to b's codepoint. */
    lemma UnicodeToByteIff(utf8: seq<byte>, b: byte)
      requires Valid()
      ensures UnicodeToByte(utf8) == b <==>
              utf8 != [] && CptFromUtf8(utf8, 0) == Some(Decoded(ByteCpt(b), |utf8|))
    {
      if utf8 != [] && CptFromUtf8(utf8, 0).Some? && CptFromUtf8(utf8, 0).value.cpt in inv {
        ByteCptInjective(inv[CptFromUtf8(utf8, 0).value.cpt], b);
      }
    }

    /** byte_to_unicode followed by unicode_to_byte is the identity. */
    lemma GlyphRoundTrip(b: byte)
      requires Valid()
      ensures UnicodeToByte(fwd[b]) == b
    {
      ByteCptInjective(b, b);
      DecodesEncoded(Glyph(b), 0, ByteCpt(b));
      UnicodeToByteIff(Glyph(b), b);
    }
  }

  lemma HiddenStep(b: byte)
    ensures HiddenBelow(b + 1) == HiddenBelow(b) + if Visible(b) then 0 else 1
    ensures ByteCpt(b) == if Visible(b) then b else 256 + HiddenBelow(b)
  {
  }

  method VisibleBytes() returns (bs: seq<byte>)
    ensures |bs| == 0xBC && forall x: byte :: x in bs <==> Visible(x)
  {
    bs := [];
    for b := 0x21 to 0x7F
      invariant |bs| == b - 0x21 && forall x: byte :: x in bs <==> 0x21 <= x < b
    {
      bs := bs + [b];
    }
    for b := 0xA1 to 0xAD
      invariant |bs| == b - 0x43
      invariant forall x: byte :: x in bs <==> 0x21 <= x <= 0x7E || 0xA1 <= x < b
    {
      bs := bs + [b];
    }
    for b := 0xAE to 0x100
      invariant |bs| == b - 0x44
      invariant forall x: byte :: x in bs <==> 0x21 <= x <= 0x7E || 0xA1 <= x <= 0xAC || 0xAE <= x < b
    {
      bs := bs + [b];
    }
  }

  /** The two parallel lists of bytes and codepoints. */
  method ByteLists() returns (bs: seq<byte>, cs: seq<nat>)
    ensures |bs| == |cs| == 256 && forall b: byte :: b in bs
    ensures forall i :: 0 <= i < |bs| ==> cs[i] == ByteCpt(bs[i])
  {
    hide HiddenBelow, ByteCpt;
    bs := VisibleBytes();
    cs := bs;
    forall b: byte ensures b in bs ==> ByteCpt(b) == b { HiddenStep(b); }
    HiddenBelowClosed(0);
    var n := 0;
    for b := 0 to 256
      invariant n == HiddenBelow(b) && |bs| == |cs| == 0xBC + n
      invariant forall x: byte :: x in bs <==> Visible(x) || x < b
      invariant forall i :: 0 <= i < |bs| ==> cs[i] == ByteCpt(bs[i])
    {
      HiddenStep(b);
      if b !in bs {
        bs := bs + [b];
        cs := cs + [256 + n];
        n := n + 1;
      }
    }
    HiddenBelowClosed(256);
  }
}
