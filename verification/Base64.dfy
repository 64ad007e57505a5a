/** Base64 coding as in section 4 of RFC 4648. */
module Base64 {
  import opened Numbers

  const PAD: Byte := 61

  datatype Triple = Triple(a: Byte, b: Byte, c: Byte)
  datatype Quad = Quad(p: Byte, q: Byte, r: Byte, s: Byte)

  // ---- Bits ----

  function First(a: Byte): Byte {
    (a & 0xfc) >> 2
  }

  function Second(a: Byte, b: Byte): Byte {
    ((a & 0x03) << 4) + ((b & 0xf0) >> 4)
  }

  function Third(b: Byte, c: Byte): Byte {
    ((b & 0x0f) << 2) + ((c & 0xc0) >> 6)
  }

  function Fourth(c: Byte): Byte {
    c & 0x3f
  }

  function ToQuad(t: Triple): Quad {
    Quad(First(t.a), Second(t.a, t.b), Third(t.b, t.c), Fourth(t.c))
  }

  function ToTriple(u: Quad): Triple {
    Triple((u.p << 2) + ((u.q & 0x30) >> 4),
           ((u.q & 0x0f) << 4) + ((u.r & 0x3c) >> 2),
           ((u.r & 0x03) << 6) + u.s)
  }

  function Bits24(a: Byte, b: Byte, c: Byte): bv32 {
    ((a as bv32) << 16) | ((b as bv32) << 8) | (c as bv32)
  }

  function Bits6(p: Byte, q: Byte, r: Byte, s: Byte): bv32 {
    ((p as bv32) << 18) | ((q as bv32) << 12) | ((r as bv32) << 6) | (s as bv32)
  }

  predicate SixBits(u: Quad) {
    u.p < 64 && u.q < 64 && u.r < 64 && u.s < 64
  }

  /** Three bytes and four groups of six bits are the same 24 bits. */
  lemma SameBits(a: Byte, b: Byte, c: Byte)
    ensures Bits6(First(a), Second(a, b), Third(b, c), Fourth(c)) == Bits24(a, b, c)
  {}

  lemma SixBitGroups(t: Triple)
    ensures SixBits(ToQuad(t))
  {}

  lemma QuadRoundTrip(t: Triple)
    ensures ToTriple(ToQuad(t)) == t
  {}

  lemma TripleRoundTrip(u: Quad)
    requires SixBits(u)
    ensures ToQuad(ToTriple(u)) == u
  {}

  // ---- The alphabet ----

  function Alphabet(i: Byte): Byte
    requires i < 64
  {
    if i < 26 then i + 65 else if i < 52 then i + 71 else if i < 62 then i - 4 else if i == 62 then 43 else 47
  }

  function Lookup(c: Byte): Byte {
    if 65 <= c <= 90 then c - 65
    else if 97 <= c <= 122 then c - 71
    else if 48 <= c <= 57 then c + 4
    else if c == 43 then 62
    else if c == 47 then 63
    else 255
  }

  predicate InAlphabet(c: Byte) {
    Lookup(c) < 64
  }

  /** The alphabet is A to Z, a to z, 0 to 9, + and /, and the padding =, in ASCII; every other character is looked
      up as 255. */
  lemma AlphabetIs(i: Byte, c: Byte)
    ensures Alphabet(0) == 65 && Alphabet(26) == 97 && Alphabet(52) == 48 && Alphabet(62) == 43 && Alphabet(63) == 47
    ensures i < 61 && i != 25 && i != 51 ==> Alphabet(i + 1) == Alphabet(i) + 1
    ensures PAD == 61 && (Lookup(c) < 64 || Lookup(c) == 255)
  {}

  lemma LookupAlphabet(i: Byte)
    requires i < 64
    ensures Lookup(Alphabet(i)) == i && Alphabet(i) != PAD
  {}

  lemma AlphabetLookup(c: Byte)
    requires InAlphabet(c)
    ensures Alphabet(Lookup(c)) == c && c != PAD
  {}

  // ---- Coding ----

  function Chars(u: Quad): (s: seq<Byte>)
    requires SixBits(u)
    ensures |s| == 4
  {
    [Alphabet(u.p), Alphabet(u.q), Alphabet(u.r), Alphabet(u.s)]
  }

  function Group(a: Byte, b: Byte, c: Byte): (s: seq<Byte>)
    ensures |s| == 4
  {
    SixBitGroups(Triple(a, b, c));
    Chars(ToQuad(Triple(a, b, c)))
  }

  /** Groups of three bytes; a last group of one or two is filled with zeros, and its unused characters are padding. */
  function Encode(s: seq<Byte>): seq<Byte> {
    if |s| == 0 then []
    else if |s| == 1 then Group(s[0], 0, 0)[..2] + [PAD, PAD]
    else if |s| == 2 then Group(s[0], s[1], 0)[..3] + [PAD]
    else Group(s[0], s[1], s[2]) + Encode(s[3..])
  }

  function Values(t: seq<Byte>): Triple
    requires |t| == 4
  {
    ToTriple(Quad(Lookup(t[0]), Lookup(t[1]), Lookup(t[2]), Lookup(t[3])))
  }

  /** What is in front of the padding. */
  function Body(t: seq<Byte>): seq<Byte> {
    if t == [] || t[0] == PAD then [] else [t[0]] + Body(t[1..])
  }

  /** Groups of four characters; a last group is filled with NULs, and gives one byte less than it has characters. */
  function DecodeBody(t: seq<Byte>): seq<Byte> {
    if |t| < 2 then []
    else if |t| == 2 then [Values(t + [0, 0]).a]
    else if |t| == 3 then (var v := Values(t + [0]); [v.a, v.b])
    else (var v := Values(t[..4]); [v.a, v.b, v.c] + DecodeBody(t[4..]))
  }

  function Decode(t: seq<Byte>): seq<Byte> {
    DecodeBody(Body(t))
  }

  /** The test vectors for f, fo and foo in section 10 of RFC 4648: Zg==, Zm8= and Zm9v. */
  lemma TestVectors()
    ensures Encode([102]) == [90, 103, 61, 61]
    ensures Encode([102, 111]) == [90, 109, 56, 61]
    ensures Encode([102, 111, 111]) == [90, 109, 57, 118]
  {}

  lemma GroupValues(a: Byte, b: Byte, c: Byte)
    ensures var g := Group(a, b, c);
            Values(g) == Triple(a, b, c) && PAD !in g &&
            Values(g[..3] + [0]).a == a && Values(g[..3] + [0]).b == b && Values(g[..2] + [0, 0]).a == a
  {
    var u := ToQuad(Triple(a, b, c));
    SixBitGroups(Triple(a, b, c));
    QuadRoundTrip(Triple(a, b, c));
    LookupAlphabet(u.p);
    LookupAlphabet(u.q);
    LookupAlphabet(u.r);
    LookupAlphabet(u.s);
    hide Alphabet, Lookup, ToQuad;
    PartialTriple(u, Lookup(0));
  }

  /** Of a group with unknown last characters the first bytes are still right. */
  lemma PartialTriple(u: Quad, x: Byte)
    ensures ToTriple(u.(s := x)).a == ToTriple(u).a && ToTriple(u.(s := x)).b == ToTriple(u).b
    ensures ToTriple(u.(r := x, s := x)).a == ToTriple(u).a
  {}

  lemma {:induction false} BodySplits(s: seq<Byte>, t: seq<Byte>)
    requires PAD !in s
    ensures Body(s + t) == s + Body(t)
  {
    if s == [] {
      assert s + t == t;
    } else {
      hide Body;
      BodySplits(s[1..], t);
      BodyStep(s[0], s[1..] + t);
      assert s + t == [s[0]] + (s[1..] + t);
    }
  }

  lemma BodyStep(c: Byte, t: seq<Byte>)
    requires c != PAD
    ensures Body([c] + t) == [c] + Body(t)
  {
    assert ([c] + t)[1..] == t;
  }

  lemma BodyOfPads()
    ensures Body([PAD, PAD]) == [] && Body([PAD]) == [] && Body([]) == []
  {}

  /** Decoding gives back every byte sequence. */
  lemma {:induction false} EncodeDecode(s: seq<Byte>)
    ensures Decode(Encode(s)) == s
    decreases |s|
  {
    hide Group, Values, Body;
    BodyOfPads();
    if |s| == 1 {
      GroupValues(s[0], 0, 0);
      BodySplits(Group(s[0], 0, 0)[..2], [PAD, PAD]);
      assert Encode(s) == Group(s[0], 0, 0)[..2] + [PAD, PAD];
      assert Body(Encode(s)) == Group(s[0], 0, 0)[..2];
      assert s == [s[0]];
    } else if |s| == 2 {
      GroupValues(s[0], s[1], 0);
      BodySplits(Group(s[0], s[1], 0)[..3], [PAD]);
      assert Encode(s) == Group(s[0], s[1], 0)[..3] + [PAD];
      assert Body(Encode(s)) == Group(s[0], s[1], 0)[..3];
      assert s == [s[0], s[1]];
    } else if |s| >= 3 {
      var g, rest := Group(s[0], s[1], s[2]), Encode(s[3..]);
      GroupValues(s[0], s[1], s[2]);
      BodySplits(g, rest);
      EncodeDecode(s[3..]);
      assert (g + Body(rest))[..4] == g && (g + Body(rest))[4..] == Body(rest);
    }
  }

  /** Decoding any text: what follows the first padding does not matter. */
  lemma UpToPadding(u: seq<Byte>, rest: seq<Byte>)
    requires PAD !in u
    ensures Decode(u + ([PAD] + rest)) == Decode(u)
  {
    BodySplits(u, [PAD] + rest);
    BodySplits(u, []);
    BodyOfPads();
    assert u + [] == u;
  }

  /** Every four characters in front of it give three bytes, letters the same 24 bits. */
  lemma GroupDecoded(g: seq<Byte>, rest: seq<Byte>)
    requires |g| == 4 && PAD !in g
    ensures var v := Values(g);
            && Decode(g + rest) == [v.a, v.b, v.c] + Decode(rest)
            && (InAlphabet(g[0]) && InAlphabet(g[1]) && InAlphabet(g[2]) && InAlphabet(g[3]) ==>
                 Bits24(v.a, v.b, v.c) == Bits6(Lookup(g[0]), Lookup(g[1]), Lookup(g[2]), Lookup(g[3])))
  {
    hide Lookup, Body;
    BodySplits(g, rest);
    assert (g + Body(rest))[..4] == g && (g + Body(rest))[4..] == Body(rest);
    var u := Quad(Lookup(g[0]), Lookup(g[1]), Lookup(g[2]), Lookup(g[3]));
    if SixBits(u) {
      TripleRoundTrip(u);
      SameBits(Values(g).a, Values(g).b, Values(g).c);
    }
  }

  /** Six bits and the upper two of the next six. */
  function SixTwo(p: Byte, q: Byte): Byte {
    (p << 2) | (q >> 4)
  }

  /** Four bits and the upper four of the next six. */
  function FourFour(q: Byte, r: Byte): Byte {
    (q << 4) | (r >> 2)
  }

  /** A rest of two or three letters gives one or two bytes, a single character none; unused bits are ignored. */
  lemma RestDecoded(x: Byte, y: Byte, z: Byte)
    requires InAlphabet(x) && InAlphabet(y) && InAlphabet(z)
    ensures Decode([]) == [] && Decode([x]) == []
    ensures Decode([x, y]) == [SixTwo(Lookup(x), Lookup(y))]
    ensures Decode([x, y, z]) == [SixTwo(Lookup(x), Lookup(y)), FourFour(Lookup(y), Lookup(z))]
  {
    AlphabetLookup(x);
    AlphabetLookup(y);
    AlphabetLookup(z);
    hide Lookup, Body, ToTriple, Alphabet, SixTwo, FourFour, DecodeBody;
    ShortDecoded(x, y, z);
    LastBits(Lookup(x), Lookup(y), Lookup(z), Lookup(0));
  }

  lemma ShortDecoded(x: Byte, y: Byte, z: Byte)
    requires x != PAD && y != PAD && z != PAD
    ensures Decode([]) == [] && Decode([x]) == []
    ensures Decode([x, y]) == [ToTriple(Quad(Lookup(x), Lookup(y), Lookup(0), Lookup(0))).a]
    ensures var v := ToTriple(Quad(Lookup(x), Lookup(y), Lookup(z), Lookup(0))); Decode([x, y, z]) == [v.a, v.b]
  {
    hide Lookup, Body, ToTriple;
    WholeBody([]);
    WholeBody([x]);
    WholeBody([x, y]);
    WholeBody([x, y, z]);
    assert [x, y] + [0, 0] == [x, y, 0, 0] && [x, y, z] + [0] == [x, y, z, 0];
  }

  lemma WholeBody(u: seq<Byte>)
    requires PAD !in u
    ensures Body(u) == u
  {
    BodySplits(u, []);
    BodyOfPads();
    assert u + [] == u;
  }

  lemma LastBits(p: Byte, q: Byte, r: Byte, s: Byte)
    requires p < 64 && q < 64 && r < 64
    ensures ToTriple(Quad(p, q, s, s)).a == SixTwo(p, q)
    ensures ToTriple(Quad(p, q, r, s)).a == SixTwo(p, q)
    ensures ToTriple(Quad(p, q, r, s)).b == FourFour(q, r)
  {}

  function EncLen(n: nat): nat {
    var m := n + 2;
    (m - m % 3) / 3 * 4
  }

  function Pads(n: nat): nat {
    (3 - n % 3) % 3
  }

  /** Letters of the alphabet, then so much padding. */
  predicate Padded(t: seq<Byte>, pads: nat) {
    pads <= |t| &&
    (forall k :: 0 <= k < |t| - pads ==> InAlphabet(t[k])) && (forall k :: |t| - pads <= k < |t| ==> t[k] == PAD)
  }

  /** The shape of an encoding: the announced length, letters of the alphabet, and padding to fill the last group. */
  lemma {:induction false} EncodeShape(s: seq<Byte>)
    ensures |Encode(s)| == EncLen(|s|) && |Encode(s)| % 4 == 0 && Padded(Encode(s), Pads(|s|))
    decreases |s|
  {
    hide Group, InAlphabet, Padded, EncLen, Pads;
    ShortLengths();
    PadsStep(if |s| < 3 then 0 else |s| - 3);
    if |s| == 0 {
      PaddedEmpty();
    } else if |s| == 1 {
      GroupInAlphabet(s[0], 0, 0);
      PaddedGroup(Group(s[0], 0, 0), 2);
    } else if |s| == 2 {
      GroupInAlphabet(s[0], s[1], 0);
      PaddedGroup(Group(s[0], s[1], 0), 1);
    } else {
      GroupInAlphabet(s[0], s[1], s[2]);
      LengthStep(|s| - 3);
      EncodeShape(s[3..]);
      PaddedBehind(Group(s[0], s[1], s[2]), Encode(s[3..]), Pads(|s|));
    }
  }

  /** The announced length is four characters for every three bytes begun. */
  lemma EncLenIs(n: nat)
    ensures EncLen(n) == (n + 2) / 3 * 4
  {
    var q, m := (n + 2) / 3, (n + 2) % 3;
    assert n + 2 == 3 * q + m;
    assert (3 * q) / 3 == q;
  }

  lemma LengthStep(n: nat)
    ensures EncLen(n + 3) == 4 + EncLen(n)
  {
    EncLenIs(n);
    EncLenIs(n + 3);
    hide EncLen;
    assert (n + 5) / 3 == (n + 2) / 3 + 1;
  }

  lemma ShortLengths()
    ensures EncLen(0) == 0 && EncLen(1) == 4 && EncLen(2) == 4
  {
    EncLenIs(0);
    EncLenIs(1);
    EncLenIs(2);
  }

  lemma PadsStep(n: nat)
    ensures Pads(n + 3) == Pads(n) && Pads(0) == 0 && Pads(1) == 2 && Pads(2) == 1
  {}

  lemma PaddedEmpty()
    ensures Padded([], 0)
  {}

  lemma PaddedGroup(g: seq<Byte>, pads: nat)
    requires |g| == 4 && 1 <= pads <= 2 && forall x :: x in g ==> InAlphabet(x)
    ensures Padded(g[..4 - pads] + if pads == 1 then [PAD] else [PAD, PAD], pads)
  {}

  lemma PaddedBehind(g: seq<Byte>, t: seq<Byte>, pads: nat)
    requires Padded(t, pads) && forall x :: x in g ==> InAlphabet(x)
    ensures Padded(g + t, pads)
  {
    hide InAlphabet;
    forall k | 0 <= k < |g + t| - pads ensures InAlphabet((g + t)[k]) {
      assert (g + t)[k] == if k < |g| then g[k] else t[k - |g|];
    }
  }

  lemma GroupInAlphabet(a: Byte, b: Byte, c: Byte)
    ensures forall x :: x in Group(a, b, c) ==> InAlphabet(x)
  {
    var u := ToQuad(Triple(a, b, c));
    SixBitGroups(Triple(a, b, c));
    LookupAlphabet(u.p);
    LookupAlphabet(u.q);
    LookupAlphabet(u.r);
    LookupAlphabet(u.s);
    hide Alphabet, Lookup, ToQuad;
  }

  predicate Letters(t: seq<Byte>) {
    forall k :: 0 <= k < |t| ==> InAlphabet(t[k])
  }

  /** Groups of four letters; the last may end in padding, and then the bits it does not use are zero. */
  predicate Canonical(t: seq<Byte>) {
    if |t| == 0 then true
    else if |t| < 4 then false
    else if |t| > 4 then Letters(t[..4]) && Canonical(t[4..])
    else
      Letters(t) ||
      (Letters(t[..3]) && t[3] == PAD && Lookup(t[2]) & 0x03 == 0) ||
      (Letters(t[..2]) && t[2] == PAD && t[3] == PAD && Lookup(t[1]) & 0x0f == 0)
  }

  lemma FullGroup(t: seq<Byte>)
    requires |t| == 4 && Letters(t)
    ensures PAD !in t && var v := Values(t); Group(v.a, v.b, v.c) == t
  {
    AlphabetLookup(t[0]);
    AlphabetLookup(t[1]);
    AlphabetLookup(t[2]);
    AlphabetLookup(t[3]);
    var u := Quad(Lookup(t[0]), Lookup(t[1]), Lookup(t[2]), Lookup(t[3]));
    TripleRoundTrip(u);
    hide Alphabet, Lookup, ToTriple, ToQuad;
  }

  /** A group of which only the first characters are known. */
  lemma ThreeOfFour(p: Byte, q: Byte, r: Byte, x: Byte)
    requires p < 64 && q < 64 && r < 64 && r & 0x03 == 0
    ensures var v := ToTriple(Quad(p, q, r, x)); First(v.a) == p && Second(v.a, v.b) == q && Third(v.b, 0) == r
  {}

  lemma TwoOfFour(p: Byte, q: Byte, x: Byte)
    requires p < 64 && q < 64 && q & 0x0f == 0
    ensures var v := ToTriple(Quad(p, q, x, x)); First(v.a) == p && Second(v.a, 0) == q
  {}

  lemma PartialGroup(t: seq<Byte>)
    requires 2 <= |t| <= 3 && Letters(t)
    ensures PAD !in t
    ensures |t| == 3 && Lookup(t[2]) & 0x03 == 0 ==> var v := Values(t + [0]); Group(v.a, v.b, 0)[..3] == t
    ensures |t| == 2 && Lookup(t[1]) & 0x0f == 0 ==> var v := Values(t + [0, 0]); Group(v.a, 0, 0)[..2] == t
  {
    AlphabetLookup(t[0]);
    AlphabetLookup(t[1]);
    if |t| == 3 {
      AlphabetLookup(t[2]);
      if Lookup(t[2]) & 0x03 == 0 {
        ThreeOfFour(Lookup(t[0]), Lookup(t[1]), Lookup(t[2]), Lookup(0));
      }
    } else if Lookup(t[1]) & 0x0f == 0 {
      TwoOfFour(Lookup(t[0]), Lookup(t[1]), Lookup(0));
    }
    hide Alphabet, Lookup, ToTriple, First, Second, Third, Fourth;
  }

  /** Encoding what was decoded gives back exactly the canonical texts. */
  lemma {:induction false} DecodeEncode(t: seq<Byte>)
    ensures Encode(Decode(t)) == t <==> Canonical(t)
  {
    if Canonical(t) {
      CanonicalBack(t);
    }
    EncodeCanonical(Decode(t));
  }

  lemma {:induction false} CanonicalBack(t: seq<Byte>)
    requires Canonical(t)
    ensures Encode(Decode(t)) == t
    decreases |t|
  {
    hide Group, Values, Lookup, Body;
    BodyOfPads();
    if |t| > 4 {
      FullGroup(t[..4]);
      BodySplits(t[..4], t[4..]);
      assert t == t[..4] + t[4..];
      CanonicalBack(t[4..]);
      hide Canonical;
      OneGroup(t[..4], Body(t[4..]));
    } else if |t| == 4 {
      LastGroup(t);
    }
  }

  lemma OneGroup(g: seq<Byte>, t: seq<Byte>)
    requires |g| == 4
    ensures var v := Values(g); DecodeBody(g + t) == [v.a, v.b, v.c] + DecodeBody(t)
    ensures var v := Values(g); Encode(DecodeBody(g + t)) == Group(v.a, v.b, v.c) + Encode(DecodeBody(t))
  {
    hide Values, Group;
    assert (g + t)[..4] == g && (g + t)[4..] == t;
  }

  lemma LastGroup(t: seq<Byte>)
    requires |t| == 4 && Canonical(t)
    ensures Encode(Decode(t)) == t
  {
    hide Group, Values, Lookup, Body;
    BodyOfPads();
    if Letters(t) {
      FullGroup(t);
      BodySplits(t, []);
      assert t + [] == t;
      OneGroup(t, []);
    } else if Letters(t[..3]) && t[3] == PAD {
      PartialGroup(t[..3]);
      BodySplits(t[..3], [PAD]);
      assert t[..3][2] == t[2] && t[2] in t[..3];
      assert t == t[..3] + [PAD] && t[..3] + [] == t[..3];
      ShortBack(t[..3]);
    } else {
      PartialGroup(t[..2]);
      BodySplits(t[..2], [PAD, PAD]);
      assert t[..2][1] == t[1];
      assert t == t[..2] + [PAD, PAD] && t[..2] + [] == t[..2];
      ShortBack(t[..2]);
    }
  }

  lemma ShortBack(q: seq<Byte>)
    ensures |q| == 3 ==> var v := Values(q + [0]); Encode(DecodeBody(q)) == Group(v.a, v.b, 0)[..3] + [PAD]
    ensures |q| == 2 ==> var v := Values(q + [0, 0]); Encode(DecodeBody(q)) == Group(v.a, 0, 0)[..2] + [PAD, PAD]
  {
    hide Values, Group;
  }

  lemma {:induction false} EncodeCanonical(s: seq<Byte>)
    ensures Canonical(Encode(s))
    decreases |s|
  {
    hide Group, Lookup;
    if |s| == 1 {
      GroupInAlphabet(s[0], 0, 0);
      UnusedBits(s[0], 0);
    } else if |s| == 2 {
      GroupInAlphabet(s[0], s[1], 0);
      UnusedBits(s[0], s[1]);
    } else if |s| >= 3 {
      GroupInAlphabet(s[0], s[1], s[2]);
      EncodeCanonical(s[3..]);
      EncodeStep(s);
      hide Encode;
      CanonicalBehind(Group(s[0], s[1], s[2]), Encode(s[3..]));
    }
  }

  lemma CanonicalBehind(g: seq<Byte>, t: seq<Byte>)
    requires |g| == 4 && Canonical(t) && forall x :: x in g ==> InAlphabet(x)
    ensures Canonical(g + t)
  {
    hide InAlphabet;
    assert (g + t)[..4] == g && (g + t)[4..] == t;
  }

  lemma UnusedBits(a: Byte, b: Byte)
    ensures Lookup(Group(a, b, 0)[2]) & 0x03 == 0 && Lookup(Group(a, 0, 0)[1]) & 0x0f == 0
  {
    SixBitGroups(Triple(a, b, 0));
    SixBitGroups(Triple(a, 0, 0));
    LookupAlphabet(Third(b, 0));
    LookupAlphabet(Second(a, 0));
    hide Lookup, Alphabet;
  }

  // ---- The loops ----

  lemma {:induction false} EncodeAppends(p: seq<Byte>, q: seq<Byte>)
    requires |p| % 3 == 0
    ensures Encode(p + q) == Encode(p) + Encode(q)
    decreases |p|
  {
    hide Group;
    if p == [] {
      assert p + q == q;
    } else {
      hide Encode;
      EncodeAppends(p[3..], q);
      assert (p + q)[3..] == p[3..] + q && (p + q)[0] == p[0] && (p + q)[1] == p[1] && (p + q)[2] == p[2];
      EncodeStep(p + q);
      EncodeStep(p);
    }
  }

  lemma EncodeStep(s: seq<Byte>)
    requires |s| >= 3
    ensures Encode(s) == Group(s[0], s[1], s[2]) + Encode(s[3..])
  {}

  lemma {:induction false} DecodeAppends(p: seq<Byte>, q: seq<Byte>)
    requires |p| % 4 == 0
    ensures DecodeBody(p + q) == DecodeBody(p) + DecodeBody(q)
    decreases |p|
  {
    hide Values;
    if p == [] {
      assert p + q == q;
    } else {
      DecodeAppends(p[4..], q);
      assert (p + q)[4..] == p[4..] + q && (p + q)[..4] == p[..4];
    }
  }

  /** The output buffer once `out` has been written to its front. */
  ghost predicate Wrote(b: seq<Byte>, out: seq<Byte>, before: seq<Byte>) {
    |out| <= |before| && b == out + before[|out|..]
  }

  lemma WroteMore(b: seq<Byte>, out: seq<Byte>, before: seq<Byte>, x: Byte)
    requires Wrote(b, out, before) && |out| < |before|
    ensures |b| == |before| && Wrote(b[|out| := x], out + [x], before)
  {}

  lemma WroteNothing(before: seq<Byte>)
    ensures Wrote(before, [], before)
  {}

  lemma WroteRoom(b: seq<Byte>, out: seq<Byte>, before: seq<Byte>)
    requires Wrote(b, out, before)
    ensures |b| == |before| && |out| <= |b|
  {}

  /** Writes the first n letters of a group to the output. */
  method PutLetters(output: array<Byte>, t: Triple, n: nat, ghost out: seq<Byte>, ghost before: seq<Byte>, at: nat)
    returns (next: nat)
    requires n <= 4 && at == |out| && at + n <= output.Length && Wrote(output[..], out, before)
    modifies output
    ensures next == at + n && Wrote(output[..], out + Group(t.a, t.b, t.c)[..n], before)
  {
    SixBitGroups(t);
    var u := ToQuad(t);
    var a4 := [u.p, u.q, u.r, u.s];
    ghost var g := Group(t.a, t.b, t.c);
    assert g == Chars(u);
    hide Wrote, Group, ToQuad, Alphabet;
    next := at;
    assert out + g[..0] == out;
    for j := 0 to n
      invariant next == at + j && Wrote(output[..], out + g[..j], before)
    {
      WroteMore(output[..], out + g[..j], before, g[j]);
      assert out + g[..j] + [g[j]] == out + g[..j + 1];
      output[next] := Alphabet(a4[j]);
      next := next + 1;
    }
  }

  method PutByte(output: array<Byte>, x: Byte, ghost out: seq<Byte>, ghost before: seq<Byte>, at: nat)
    returns (next: nat)
    requires at == |out| < output.Length && Wrote(output[..], out, before)
    modifies output
    ensures next == at + 1 && Wrote(output[..], out + [x], before)
  {
    hide Wrote;
    WroteRoom(output[..], out, before);
    WroteMore(output[..], out, before, x);
    output[at] := x;
    next := at + 1;
  }

  /** Collects three bytes at a time; what is left over is coded in a last group with padding, and a NUL follows. */
  method Base64Encode(output: array<Byte>, input: seq<Byte>) returns (encLen: nat)
    requires EncLen(|input|) < output.Length
    modifies output
    ensures encLen == EncLen(|input|)
    ensures Wrote(output[..], Encode(input) + [0], old(output[..]))
  {
    hide Wrote, Group, Encode, EncLen;
    var i, k := 0, 0;
    var a3 := Triple(0, 0, 0);
    encLen := 0;
    ghost var before := output[..];
    WroteNothing(before);
    EncodeEmpty();
    EncodeShape(input);
    assert input[..0] == [];
    while k < |input|
      invariant 0 <= k <= |input| && i == k % 3 && i <= k
      invariant i >= 1 ==> a3.a == input[k - i]
      invariant i >= 2 ==> a3.b == input[k - i + 1]
      invariant encLen == |Encode(input[..k - i])| && Wrote(output[..], Encode(input[..k - i]), before)
    {
      var c := input[k];
      a3 := if i == 0 then a3.(a := c) else if i == 1 then a3.(b := c) else a3.(c := c);
      i, k := i + 1, k + 1;
      if i == 3 {
        EncodeNext(input, k);
        encLen := PutLetters(output, a3, 4, Encode(input[..k - 3]), before, encLen);
        i := 0;
      }
    }
    EncodeLast(input, i);
    EncodeShort(Encode(input[..k - i]), input[k - i..]);
    if i > 0 {
      a3 := if i == 1 then Triple(a3.a, 0, 0) else Triple(a3.a, a3.b, 0);
      ghost var out := Encode(input[..k - i]);
      ghost var g := Group(a3.a, a3.b, a3.c)[..i + 1];
      encLen := PutLetters(output, a3, i + 1, out, before, encLen);
      out := out + g;
      while i < 3
        invariant 1 <= i <= 3
        invariant encLen == |out| && Wrote(output[..], out, before)
        invariant Encode(input) == if i == 1 then out + [PAD] + [PAD] else if i == 2 then out + [PAD] else out
      {
        encLen := PutByte(output, PAD, out, before, encLen);
        out := out + [PAD];
        i := i + 1;
      }
    }
    encLen := PutByte(output, 0, Encode(input), before, encLen);
    encLen := encLen - 1;
  }

  lemma EncodeEmpty()
    ensures Encode([]) == [] && EncLen(0) == 0
  {}

  lemma EncodeNext(s: seq<Byte>, k: nat)
    requires 3 <= k <= |s| && k % 3 == 0
    ensures Encode(s[..k]) == Encode(s[..k - 3]) + Group(s[k - 3], s[k - 2], s[k - 1])
    ensures |Encode(s[..k])| <= |Encode(s)|
    ensures Group(s[k - 3], s[k - 2], s[k - 1])[..4] == Group(s[k - 3], s[k - 2], s[k - 1])
  {
    var g := [s[k - 3], s[k - 2], s[k - 1]];
    hide Group;
    assert Encode(g) == Group(g[0], g[1], g[2]) + Encode(g[3..]) && Encode(g[3..]) == [];
    hide Encode;
    assert s[..k] == s[..k - 3] + g;
    EncodeAppends(s[..k - 3], g);
    assert s == s[..k] + s[k..];
    EncodeAppends(s[..k], s[k..]);
  }

  /** Without its last, partial group a sequence consists of whole groups. */
  lemma {:induction false} WholeGroups(n: nat, size: nat)
    requires size == 3 || size == 4
    ensures n % size <= n && (n - n % size) % size == 0
    decreases n
  {
    if n >= size {
      WholeGroups(n - size, size);
    }
  }

  lemma EncodeLast(s: seq<Byte>, i: nat)
    requires i == |s| % 3
    ensures i <= |s| && Encode(s) == Encode(s[..|s| - i]) + Encode(s[|s| - i..])
  {
    hide *;
    var n := |s| - i;
    WholeGroups(|s|, 3);
    assert s == s[..n] + s[n..];
    EncodeAppends(s[..n], s[n..]);
  }

  /** The last group, as the loop puts it together behind `out`. */
  lemma EncodeShort(out: seq<Byte>, q: seq<Byte>)
    requires |q| < 3
    ensures |q| == 0 ==> out + Encode(q) == out
    ensures |q| == 1 ==> out + Encode(q) == out + Group(q[0], 0, 0)[..2] + [PAD] + [PAD]
    ensures |q| == 2 ==> out + Encode(q) == out + Group(q[0], q[1], 0)[..3] + [PAD]
  {
    hide Group;
  }

  function Bytes(v: Triple): (s: seq<Byte>)
    ensures |s| == 3
  {
    [v.a, v.b, v.c]
  }

  method PutBytes(output: array<Byte>, v: Triple, n: nat, ghost out: seq<Byte>, ghost before: seq<Byte>, at: nat)
    returns (next: nat)
    requires n <= 3 && at == |out| && at + n <= output.Length && Wrote(output[..], out, before)
    modifies output
    ensures next == at + n && Wrote(output[..], out + Bytes(v)[..n], before)
  {
    hide Wrote;
    var a3 := Bytes(v);
    next := at;
    assert out + a3[..0] == out;
    for j := 0 to n
      invariant next == at + j && Wrote(output[..], out + a3[..j], before)
    {
      assert out + a3[..j] + [a3[j]] == out + a3[..j + 1];
      next := PutByte(output, a3[j], out + a3[..j], before, next);
    }
  }

  /** The characters collected for the present group. */
  lemma Collected(s: seq<Byte>, k: nat, i: nat, a4: seq<Byte>)
    requires i <= k <= |s| && i <= |a4| && forall j :: 0 <= j < i ==> a4[j] == s[k - i + j]
    ensures s[..k][..k - i] == s[..k - i] && s[..k][k - i..] == s[k - i..k] == a4[..i]
    ensures i == |a4| ==> a4 == s[k - i..k]
  {}

  /** Collects four characters at a time up to the first padding; a last group gives one byte less than it has
      characters, and a NUL follows. */
  method Base64Decode(output: array<Byte>, input: seq<Byte>) returns (decLen: nat)
    requires |Decode(input)| < output.Length
    modifies output
    ensures decLen == |Decode(input)|
    ensures Wrote(output[..], Decode(input) + [0], old(output[..]))
  {
    hide Wrote, Values, DecodeBody, Body, Bytes;
    var i, k := 0, 0;
    var a4: seq<Byte> := [0, 0, 0, 0];
    decLen := 0;
    ghost var before := output[..];
    WroteNothing(before);
    DecodeShort([], []);
    assert input[..0] == [] && Unpadded(input[..0]);
    hide Unpadded;
    while k < |input|
      invariant 0 <= k <= |input| && i == k % 4 && i <= k && |a4| == 4
      invariant Unpadded(input[..k])
      invariant forall j :: 0 <= j < i ==> a4[j] == input[k - i + j]
      invariant decLen == |DecodeBody(input[..k - i])| && Wrote(output[..], DecodeBody(input[..k - i]), before)
    {
      if input[k] == PAD {
        break;
      }
      UnpaddedMore(input, k);
      a4 := a4[i := input[k]];
      i, k := i + 1, k + 1;
      if i == 4 {
        Collected(input, k, i, a4);
        DecodeNext(input, k, a4);
        decLen := PutBytes(output, Values(a4), 3, DecodeBody(input[..k - 4]), before, decLen);
        i := 0;
      }
    }
    BodyEnds(input, k);
    DecodeLast(input[..k], i);
    Collected(input, k, i, a4);
    ghost var out, rest := DecodeBody(input[..k - i]), input[..k][k - i..];
    decLen := DecodeTail(output, a4, i, rest, out, before, decLen);
  }

  /** The last group of the decoder, and the NUL. */
  method DecodeTail(output: array<Byte>, tail: seq<Byte>, i: nat, ghost rest: seq<Byte>, ghost out: seq<Byte>,
                    ghost before: seq<Byte>, at: nat) returns (decLen: nat)
    requires |tail| == 4 && i == |rest| < 4 && forall j :: 0 <= j < i ==> tail[j] == rest[j]
    requires at == |out| && Wrote(output[..], out, before) && |out + DecodeBody(rest)| < output.Length
    modifies output
    ensures decLen == |out + DecodeBody(rest)| && Wrote(output[..], out + DecodeBody(rest) + [0], before)
  {
    hide Wrote, Values, DecodeBody, Bytes;
    decLen := at;
    DecodeShort(out, rest);
    if i > 0 {
      var a4 := if i == 1 then [tail[0], 0, 0, 0] else if i == 2 then [tail[0], tail[1], 0, 0]
                else [tail[0], tail[1], tail[2], 0];
      ShortGroup(rest, a4);
      decLen := PutBytes(output, Values(a4), i - 1, out, before, decLen);
    }
    decLen := PutByte(output, 0, out + DecodeBody(rest), before, decLen);
    decLen := decLen - 1;
  }

  lemma DecodeNext(s: seq<Byte>, k: nat, g: seq<Byte>)
    requires 4 <= k <= |s| && k % 4 == 0 && g == s[k - 4..k] && Unpadded(s[..k])
    ensures DecodeBody(s[..k]) == DecodeBody(s[..k - 4]) + Bytes(Values(g))
    ensures Bytes(Values(g))[..3] == Bytes(Values(g)) && |DecodeBody(s[..k])| <= |Decode(s)|
  {
    hide DecodeBody, Values, Body, Bytes;
    DecodePrefix(s, k);
    OneDecoded(g);
    DecodeAppends(s[..k - 4], g);
    assert s[..k] == s[..k - 4] + g;
  }

  lemma DecodePrefix(s: seq<Byte>, k: nat)
    requires k <= |s| && k % 4 == 0 && Unpadded(s[..k])
    ensures |DecodeBody(s[..k])| <= |Decode(s)|
  {
    hide DecodeBody, Body;
    assert s == s[..k] + s[k..];
    BodySplits(s[..k], s[k..]);
    DecodeAppends(s[..k], Body(s[k..]));
  }

  lemma OneDecoded(g: seq<Byte>)
    requires |g| == 4
    ensures DecodeBody(g) == Bytes(Values(g))
  {
    hide Values;
    assert g[..4] == g && g[4..] == [];
  }

  predicate Unpadded(s: seq<Byte>) {
    PAD !in s
  }

  lemma UnpaddedMore(s: seq<Byte>, k: nat)
    requires k < |s| && Unpadded(s[..k]) && s[k] != PAD
    ensures Unpadded(s[..k + 1])
  {
    assert s[..k + 1] == s[..k] + [s[k]];
  }

  lemma BodyEnds(s: seq<Byte>, k: nat)
    requires k <= |s| && Unpadded(s[..k]) && (k == |s| || s[k] == PAD)
    ensures Body(s) == s[..k]
  {
    assert s == s[..k] + s[k..];
    BodySplits(s[..k], s[k..]);
  }

  lemma DecodeLast(s: seq<Byte>, i: nat)
    requires i == |s| % 4
    ensures i <= |s| && DecodeBody(s) == DecodeBody(s[..|s| - i]) + DecodeBody(s[|s| - i..])
  {
    hide *;
    var n := |s| - i;
    WholeGroups(|s|, 4);
    assert s == s[..n] + s[n..];
    DecodeAppends(s[..n], s[n..]);
  }

  lemma DecodeShort(out: seq<Byte>, q: seq<Byte>)
    requires |q| < 4
    ensures |q| <= 1 ==> DecodeBody(q) == [] && out + DecodeBody(q) == out
    ensures |q| == 2 ==> DecodeBody(q) == Bytes(Values(q + [0, 0]))[..1]
    ensures |q| == 3 ==> DecodeBody(q) == Bytes(Values(q + [0]))[..2]
  {
    hide Values;
  }

  lemma ShortGroup(q: seq<Byte>, g: seq<Byte>)
    requires 1 <= |q| < 4 && |g| == 4
    requires forall j :: 0 <= j < 4 ==> g[j] == if j < |q| then q[j] else 0
    ensures |q| == 1 ==> Bytes(Values(g))[..0] == []
    ensures |q| == 2 ==> g == q + [0, 0]
    ensures |q| == 3 ==> g == q + [0]
  {}

  /** Counts the padding at the end, which has to end somewhere: for an encoding the result is the length of what was
      encoded. */
  method Base64DecLen(input: seq<Byte>) returns (n: int)
    requires !Padded(input, |input|)
    ensures forall pads :: Padded(input, pads) ==> n == 6 * |input| / 8 - pads
    ensures forall s :: input == Encode(s) ==> n == |s|
  {
    var i, numEq := |input| - 1, 0;
    while input[i] == PAD
      invariant 0 <= i < |input| && numEq == |input| - 1 - i
      invariant forall k :: i < k < |input| ==> input[k] == PAD
      decreases i
    {
      i, numEq := i - 1, numEq + 1;
    }
    n := 6 * |input| / 8 - numEq;
    forall pads | Padded(input, pads) ensures pads == numEq {
      PadsUnique(input, pads, numEq);
    }
    forall s | input == Encode(s) ensures n == |s| {
      EncodeShape(s);
      LengthBack(|s|);
    }
  }

  lemma PadsUnique(t: seq<Byte>, pads: nat, n: nat)
    requires Padded(t, pads) && n < |t| && t[|t| - 1 - n] != PAD && forall k :: |t| - n <= k < |t| ==> t[k] == PAD
    ensures pads == n
  {
    if pads < n {
      assert InAlphabet(t[|t| - 1 - pads]);
      AlphabetLookup(PAD);
    }
  }

  lemma LengthBack(n: nat)
    ensures 6 * EncLen(n) / 8 - Pads(n) == n
  {
    EncLenIs(n);
    hide EncLen;
    var q, r := n / 3, n % 3;
    assert n == 3 * q + r;
  }
}
