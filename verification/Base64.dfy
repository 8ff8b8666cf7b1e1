/** Base64 with both alphabets of RFC 4648, and the line-wrapped PEM and MIME forms. */
module Base64 {
  import opened Arith
  import opened Words

  datatype Result<+T> = Ok(value: T) | Invalid

  // ---------------------------------------------------------------- alphabets

  /** Table 1 of RFC 4648, or Table 2 when `url` is set. */
  function Symbol(v: nat, url: bool): char
    requires v < 64
  {
    if v < 26 then (v + 'A' as int) as char
    else if v < 52 then (v - 26 + 'a' as int) as char
    else if v < 62 then (v - 52 + '0' as int) as char
    else if v == 62 then (if url then '-' else '+')
    else if url then '_' else '/'
  }

  function Padding(url: bool): char { if url then '.' else '=' }

  predicate IsPadding(c: char) { c == '=' || c == '.' }

  /** Both alphabets are accepted. */
  function PosOfChar(c: char): (r: Result<nat>)
    ensures r.Ok? ==> r.value < 64
  {
    if 'A' <= c <= 'Z' then Ok(c as int - 'A' as int)
    else if 'a' <= c <= 'z' then Ok(c as int - 'a' as int + ('Z' as int - 'A' as int) + 1)
    else if '0' <= c <= '9' then Ok(c as int - '0' as int + ('Z' as int - 'A' as int) + ('z' as int - 'a' as int) + 2)
    else if c == '+' || c == '-' then Ok(62)
    else if c == '/' || c == '_' then Ok(63)
    else Invalid
  }

  lemma PosOfSymbol(v: nat, url: bool)
    requires v < 64
    ensures PosOfChar(Symbol(v, url)) == Ok(v) && !IsPadding(Symbol(v, url)) && Symbol(v, url) != '\n'
  {
  }

  /** The two alphabets of RFC 4648, character by character. */
  function Alphabet(url: bool): (s: string)
    ensures |s| == 64
  {
    "ABCDEFGHIJKLMNOPQRSTUVWXYZ" + "abcdefghijklmnopqrstuvwxyz" + "0123456789" + (if url then "-_" else "+/")
  }

  lemma SymbolIsTable(v: nat, url: bool)
    requires v < 64
    ensures Symbol(v, url)
      == ("ABCDEFGHIJKLMNOPQRSTUVWXYZ" + "abcdefghijklmnopqrstuvwxyz" + "0123456789" + (if url then "-_" else "+/"))[v]
  {
    if v < 26 {
      UpperIs(v);
    } else if v < 52 {
      LowerIs(v - 26);
    } else if v < 62 {
      DigitIs(v - 52);
    } else {
      assert ("-_")[0] == '-' && ("-_")[1] == '_' && ("+/")[0] == '+' && ("+/")[1] == '/';
    }
    hide Symbol;
    TableParts("ABCDEFGHIJKLMNOPQRSTUVWXYZ", "abcdefghijklmnopqrstuvwxyz", "0123456789", if url then "-_" else "+/", v);
  }

  lemma TableParts(a: string, b: string, c: string, d: string, v: nat)
    requires |a| == |b| == 26 && |c| == 10 && |d| == 2 && v < 64
    ensures (a + b + c + d)[v]
         == if v < 26 then a[v] else if v < 52 then b[v - 26] else if v < 62 then c[v - 52] else d[v - 62]
  {
  }

  lemma UpperIs(v: nat)
    requires v < 26
    ensures "ABCDEFGHIJKLMNOPQRSTUVWXYZ"[v] == (v + 'A' as int) as char
  {
  }

  lemma LowerIs(v: nat)
    requires v < 26
    ensures "abcdefghijklmnopqrstuvwxyz"[v] == (v + 'a' as int) as char
  {
  }

  lemma DigitIs(v: nat)
    requires v < 10
    ensures "0123456789"[v] == (v + '0' as int) as char
  {
  }

  /** Exactly the characters of the two alphabets are accepted. */
  lemma AcceptedCharacters(c: char)
    ensures PosOfChar(c).Ok? <==> c in Alphabet(false) || c in Alphabet(true)
  {
    if PosOfChar(c).Ok? {
      var v := PosOfChar(c).value;
      var url := c == '-' || c == '_';
      assert Symbol(v, url) == c;
      SymbolIsTable(v, url);
      assert Alphabet(url)[v] == c;
    }
    hide PosOfChar;
    if c in Alphabet(false) { InTable(c, false); }
    if c in Alphabet(true) { InTable(c, true); }
  }

  lemma InTable(c: char, url: bool)
    requires c in Alphabet(url)
    ensures PosOfChar(c).Ok?
  {
    hide Symbol, PosOfChar;
    var v :| 0 <= v < 64 && Alphabet(url)[v] == c;
    SymbolIsTable(v, url);
    PosOfSymbol(v, url);
  }

  // ---------------------------------------------------------------- specification

  /** Three octets as one 24-bit number (section 4 of RFC 4648). */
  function Quantum(a: nat, b: nat, c: nat): nat { a * 0x1_0000 + b * 0x100 + c }

  /** One to three octets as four characters; a final group is zero-extended and padded. */
  function Group(s: seq<u8>, url: bool): (g: string)
    requires 1 <= |s| <= 3
    ensures |g| == 4
  {
    var q := Quantum(s[0], if |s| > 1 then s[1] else 0, if |s| > 2 then s[2] else 0);
    assert q < 0x100_0000;
    [Symbol(q / 0x4_0000, url), Symbol(q / 0x1000 % 64, url),
     if |s| > 1 then Symbol(q / 64 % 64, url) else Padding(url),
     if |s| > 2 then Symbol(q % 64, url) else Padding(url)]
  }

  function Encoded(s: seq<u8>, url: bool): string
  {
    if |s| == 0 then []
    else if |s| <= 3 then Group(s, url)
    else Group(s[..3], url) + Encoded(s[3..], url)
  }

  /** The octets of four characters: as many as are not padded away, with zero bits for padding. */
  function Octets(c0: char, c1: char, c2: char, c3: char): Result<seq<u8>>
  {
    var v0, v1 := PosOfChar(c0), PosOfChar(c1);
    var v2 := if IsPadding(c2) then Ok(0) else PosOfChar(c2);
    var v3 := if IsPadding(c2) || IsPadding(c3) then Ok(0) else PosOfChar(c3);
    if v0.Invalid? || v1.Invalid? || v2.Invalid? || v3.Invalid? then Invalid
    else
      var n := Bits(v0.value, v1.value, v2.value, v3.value);
      Ok(if IsPadding(c2) then [n / 0x1_0000]
         else if IsPadding(c3) then [n / 0x1_0000, n / 0x100 % 0x100]
         else [n / 0x1_0000, n / 0x100 % 0x100, n % 0x100])
  }

  /** Four sextets as one 24-bit number. */
  function Bits(v0: nat, v1: nat, v2: nat, v3: nat): (n: nat)
    requires v0 < 64 && v1 < 64 && v2 < 64 && v3 < 64
    ensures n < 0x100_0000
  {
    ((v0 * 64 + v1) * 64 + v2) * 64 + v3
  }

  /** Past its end a string reads as NUL, which is not a base64 character. */
  function At(text: string, i: nat): char { if i < |text| then text[i] else '\0' }

  /** What `std::string` allows: reading up to and including the terminator. */
  function CharAt(text: string, i: nat): (c: char)
    requires i <= |text|
    ensures c == At(text, i)
  {
    if i == |text| then '\0' else text[i]
  }

  /** NUL is neither a base64 character nor padding, so no read goes past a missing character. */
  lemma NulIsInvalid()
    ensures PosOfChar('\0').Invalid? && !IsPadding('\0')
  {
  }

  function Decoded(text: string): Result<seq<u8>>
    decreases |text|
  {
    if |text| == 0 then Ok([])
    else
      var first := Octets(text[0], At(text, 1), At(text, 2), At(text, 3));
      var rest := Decoded(text[if |text| < 4 then |text| else 4..]);
      if first.Ok? && rest.Ok? then Ok(first.value + rest.value) else Invalid
  }

  // ---------------------------------------------------------------- round trip

  lemma GroupRoundTrip(s: seq<u8>, url: bool)
    requires 1 <= |s| <= 3
    ensures
      var g := Group(s, url);
      Octets(g[0], g[1], g[2], g[3]) == Ok(s) && '\n' !in g
  {
    hide Symbol, PosOfChar, Quantum, Bits, Group;
    var a, b, c := s[0], if |s| > 1 then s[1] else 0, if |s| > 2 then s[2] else 0;
    GroupIs(s, b, c, url);
    QuantumDigits(a, b, c);
    QuantumOctets(a, b, c);
    PosOfSymbol(a / 4, url);
    PosOfSymbol(a % 4 * 16 + b / 16, url);
    PosOfSymbol(b % 16 * 4 + c / 64, url);
    PosOfSymbol(c % 64, url);
    assert s == if |s| == 1 then [a] else if |s| == 2 then [a, b] else [a, b, c];
  }

  /** The sextets of the 24-bit number. */
  lemma SextetsOf(v0: nat, v1: nat, v2: nat, v3: nat)
    requires v0 < 64 && v1 < 64 && v2 < 64 && v3 < 64
    ensures
      var q := Bits(v0, v1, v2, v3);
      q / 0x4_0000 == v0 && q / 0x1000 % 64 == v1 && q / 64 % 64 == v2 && q % 64 == v3
  {
    var q := Bits(v0, v1, v2, v3);
    DivModUnique(q, 0x4_0000, v0, (v1 * 64 + v2) * 64 + v3);
    DivModUnique(q, 0x1000, v0 * 64 + v1, v2 * 64 + v3);
    DivModUnique(v0 * 64 + v1, 64, v0, v1);
    DivModUnique(q, 64, (v0 * 64 + v1) * 64 + v2, v3);
    DivModUnique((v0 * 64 + v1) * 64 + v2, 64, v0 * 64 + v1, v2);
  }

  lemma QuantumDigits(a: u8, b: u8, c: u8)
    ensures
      var q := Quantum(a, b, c);
      var v0, v1, v2, v3 := a / 4, a % 4 * 16 + b / 16, b % 16 * 4 + c / 64, c % 64;
      && v0 < 64 && v1 < 64 && v2 < 64 && v3 < 64
      && q == Bits(v0, v1, v2, v3)
      && q / 0x4_0000 == v0 && q / 0x1000 % 64 == v1 && q / 64 % 64 == v2 && q % 64 == v3
  {
    var v0, v1, v2, v3 := a / 4, a % 4 * 16 + b / 16, b % 16 * 4 + c / 64, c % 64;
    SextetsOf(v0, v1, v2, v3);
  }

  lemma QuantumOctets(a: u8, b: u8, c: u8)
    ensures
      var q := Quantum(a, b, c);
      q / 0x1_0000 == a && q / 0x100 % 0x100 == b && q % 0x100 == c
  {
    var q := Quantum(a, b, c);
    DivModUnique(q, 0x1_0000, a, b * 0x100 + c);
    DivModUnique(q, 0x100, a * 0x100 + b, c);
    DivModUnique(a * 0x100 + b, 0x100, a, b);
  }

  /** The octets of the 24-bit number, from its sextets. */
  lemma OctetsOf(v0: nat, v1: nat, v2: nat, v3: nat)
    requires v0 < 64 && v1 < 64 && v2 < 64 && v3 < 64
    ensures
      var n := Bits(v0, v1, v2, v3);
      n / 0x1_0000 == v0 * 4 + v1 / 16 && n / 0x100 % 0x100 == v1 % 16 * 16 + v2 / 4 && n % 0x100 == v2 % 4 * 64 + v3
  {
    var a, b, c := v0 * 4 + v1 / 16, v1 % 16 * 16 + v2 / 4, v2 % 4 * 64 + v3;
    assert Bits(v0, v1, v2, v3) == Quantum(a, b, c);
    QuantumOctets(a, b, c);
  }

  /** The characters of a group from its octets. */
  lemma GroupIs(s: seq<u8>, b: u8, c: u8, url: bool)
    requires 1 <= |s| <= 3 && b == (if |s| > 1 then s[1] else 0) && c == if |s| > 2 then s[2] else 0
    ensures
      var a := s[0];
      && a / 4 < 64 && a % 4 * 16 + b / 16 < 64 && b % 16 * 4 + c / 64 < 64
      && Group(s, url) == [Symbol(a / 4, url), Symbol(a % 4 * 16 + b / 16, url),
                           if |s| > 1 then Symbol(b % 16 * 4 + c / 64, url) else Padding(url),
                           if |s| > 2 then Symbol(c % 64, url) else Padding(url)]
  {
    hide Symbol, Quantum, Bits;
    QuantumDigits(s[0], b, c);
  }

  /** Decoding what was encoded gives the octets back, in both alphabets. */
  lemma {:induction false} RoundTrip(s: seq<u8>, url: bool)
    ensures Decoded(Encoded(s, url)) == Ok(s)
    ensures '\n' !in Encoded(s, url)
    decreases |s|
  {
    hide Group, Octets;
    if |s| > 0 {
      var first, rest := if |s| <= 3 then s else s[..3], if |s| <= 3 then [] else s[3..];
      GroupRoundTrip(first, url);
      RoundTrip(rest, url);
      var g := Group(first, url);
      assert Encoded(s, url) == g + Encoded(rest, url);
      assert (g + Encoded(rest, url))[4..] == Encoded(rest, url);
      assert first + rest == s;
    }
  }

  /** A group ends in as many '=', or '.' for the second alphabet, as it lacks octets of three. */
  lemma GroupPadding(s: seq<u8>, url: bool)
    requires 1 <= |s| <= 3
    ensures
      var g := Group(s, url);
      && (forall i :: 0 <= i < |s| + 1 ==> g[i] != '=' && g[i] != '.')
      && (forall i :: |s| + 1 <= i < 4 ==> g[i] == if url then '.' else '=')
  {
    hide Symbol, PosOfChar, Quantum, Bits;
    var b, c := if |s| > 1 then s[1] else 0, if |s| > 2 then s[2] else 0;
    GroupIs(s, b, c, url);
    PosOfSymbol(s[0] / 4, url);
    PosOfSymbol(s[0] % 4 * 16 + b / 16, url);
    PosOfSymbol(b % 16 * 4 + c / 64, url);
    PosOfSymbol(c % 64, url);
  }

  /** The length of an encoding, and its padding: two characters for one octet over, one for two
      octets over, none otherwise, and none anywhere else. */
  lemma {:induction false} EncodedPadding(s: seq<u8>, url: bool)
    ensures
      var e := Encoded(s, url);
      var padded := if |s| % 3 == 1 then 2 else if |s| % 3 == 2 then 1 else 0;
      && |e| == (|s| + 2) / 3 * 4
      && (forall i :: 0 <= i < |e| - padded ==> e[i] != '=' && e[i] != '.')
      && (forall i :: |e| - padded <= i < |e| ==> e[i] == if url then '.' else '=')
    decreases |s|
  {
    hide Group;
    if 0 < |s| <= 3 {
      GroupPadding(s, url);
    } else if |s| > 3 {
      GroupPadding(s[..3], url);
      EncodedPadding(s[3..], url);
      assert (|s[3..]| + 3) % 3 == |s[3..]| % 3;
    }
  }

  /** The test vectors of section 10 of RFC 4648. */
  lemma TestVectors()
    ensures Encoded([0x66], false) == "Zg=="
    ensures Encoded([0x66, 0x6f], false) == "Zm8="
    ensures Encoded([0x66, 0x6f, 0x6f], false) == "Zm9v"
    ensures Encoded([0x66, 0x6f, 0x6f, 0x62], false) == "Zm9vYg=="
    ensures Encoded([0x66, 0x6f, 0x6f, 0x62, 0x61], false) == "Zm9vYmE="
    ensures Encoded([0x66, 0x6f, 0x6f, 0x62, 0x61, 0x72], false) == "Zm9vYmFy"
  {
    hide Group, Quantum, Bits;
    var foo: seq<u8> := [0x66, 0x6f, 0x6f];
    GroupIs([0x66], 0, 0, false);
    GroupIs([0x66, 0x6f], 0x6f, 0, false);
    GroupIs(foo, 0x6f, 0x6f, false);
    GroupIs([0x62], 0, 0, false);
    GroupIs([0x62, 0x61], 0x61, 0, false);
    GroupIs([0x62, 0x61, 0x72], 0x61, 0x72, false);
    EncodedSplit(foo, [0x62], false);
    EncodedSplit(foo, [0x62, 0x61], false);
    EncodedSplit(foo, [0x62, 0x61, 0x72], false);
    assert foo + [0x62] == [0x66, 0x6f, 0x6f, 0x62];
    assert foo + [0x62, 0x61] == [0x66, 0x6f, 0x6f, 0x62, 0x61];
    assert foo + [0x62, 0x61, 0x72] == [0x66, 0x6f, 0x6f, 0x62, 0x61, 0x72];
  }

  lemma EncodedSplit(first: seq<u8>, rest: seq<u8>, url: bool)
    requires |first| == 3 && 1 <= |rest| <= 3
    ensures Encoded(first + rest, url) == Group(first, url) + Group(rest, url)
  {
    hide Group;
    assert (first + rest)[..3] == first && (first + rest)[3..] == rest;
  }

  // ---------------------------------------------------------------- masks

  lemma MaskIs(a: nat, k: nat, n: nat, mask: nat, d: nat, e: nat)
    requires d == Pow2(n) && e == Pow2(k) && mask == (e - 1) * d
    ensures And(a, mask) / d == a / d % e
  {
    hide And, Pow2, Doubled, Halved;
    AndHighMask(a, e - 1, n);
    DoubledIsProduct(e - 1, n);
    HalvedIsQuotient(a, n);
    AndLowMask(a / d, k);
    DoubledIsProduct(a / d % e, n);
    DivModUnique(a / d % e * d, d, a / d % e, 0);
  }

  lemma SmallPowers()
    ensures Pow2(0) == 1 && Pow2(2) == 4 && Pow2(4) == 16 && Pow2(6) == 64
  {
  }

  lemma Masks(a: u8)
    ensures And(a, 0xfc) / 4 == a / 4 && And(a, 0x03) == a % 4
    ensures And(a, 0xf0) / 16 == a / 16 && And(a, 0x0f) == a % 16
    ensures And(a, 0xc0) / 64 == a / 64 && And(a, 0x3f) == a % 64
    ensures And(a, 0x30) / 16 == a / 16 % 4 && And(a, 0x3c) / 4 == a / 4 % 16
  {
    hide And, Pow2;
    SmallPowers();
    MaskIs(a, 6, 2, 0xfc, 4, 64);
    MaskIs(a, 2, 0, 0x03, 1, 4);
    MaskIs(a, 4, 4, 0xf0, 16, 16);
    MaskIs(a, 4, 0, 0x0f, 1, 16);
    MaskIs(a, 2, 6, 0xc0, 64, 4);
    MaskIs(a, 6, 0, 0x3f, 1, 64);
    MaskIs(a, 2, 4, 0x30, 16, 4);
    MaskIs(a, 4, 2, 0x3c, 4, 16);
  }

  // ---------------------------------------------------------------- encoding

  /** The position after some passes of the loop: a 32-bit counter. */
  function PosAfter(steps: nat): u32
  {
    if steps == 0 then 0 else (PosAfter(steps - 1) + 3) % TWO32
  }

  lemma PosNext(steps: nat)
    ensures PosAfter(0) == 0 && PosAfter(steps + 1) == (PosAfter(steps) + 3) % TWO32
  {
  }

  lemma {:induction false} PosClosed(steps: nat)
    ensures PosAfter(steps) == 3 * steps % TWO32
  {
    if steps != 0 {
      PosClosed(steps - 1);
      WrapSum32(3 * (steps - 1), 3);
    }
  }

  /** The encoding loop leaves exactly for inputs shorter than 2^32; a longer input is never done. */
  lemma EncodeEndsIff(length: nat)
    ensures (exists steps: nat :: PosAfter(steps) >= length) <==> length < TWO32
  {
    hide PosAfter;
    PosClosed(0x5555_5555);
    assert PosAfter(0x5555_5555) == 0xffff_ffff;
  }

  method Encode(bytes: seq<u8>, url: bool) returns (ret: string)
    requires |bytes| < TWO32
    ensures ret == Encoded(bytes, url)
  {
    hide Encoded, Group, PosAfter;
    PosNext(0);
    ret := [];
    var pos: u32 := 0;
    ghost var steps := 0;
    assert bytes[0..] == bytes && Encoded([], url) == [] by { NothingEncoded(url); }
    while pos < |bytes|
      invariant pos == PosAfter(steps) && pos % 3 == 0
      invariant ret + Encoded(bytes[Cut(pos, bytes)..], url) == Encoded(bytes, url)
      decreases |bytes| - pos
    {
      EncodedFrom(bytes, pos, url);
      NoWrap(pos, |bytes|);
      PosNext(steps);
      var group := EncodeGroup(bytes, pos, url);
      ret := ret + group;
      pos := (pos + 3) % TWO32;
      steps := steps + 1;
    }
    assert bytes[Cut(pos, bytes)..] == [];
  }

  function Cut(pos: nat, bytes: seq<u8>): (end: nat)
    ensures end <= |bytes|
  {
    if pos < |bytes| then pos else |bytes|
  }

  lemma NothingEncoded(url: bool)
    ensures Encoded([], url) == []
  {
  }

  lemma EncodedFrom(bytes: seq<u8>, pos: nat, url: bool)
    requires pos < |bytes|
    ensures Encoded(bytes[pos..], url)
        == Group(bytes[pos..Cut(pos + 3, bytes)], url) + Encoded(bytes[Cut(pos + 3, bytes)..], url)
  {
    hide Group;
    var s, end := bytes[pos..], Cut(pos + 3, bytes);
    if |s| <= 3 {
      assert bytes[pos..end] == s && bytes[end..] == [];
    } else {
      assert bytes[pos..end] == s[..3] && bytes[end..] == s[3..];
    }
  }

  /** One pass of the loop, with the masks, shifts and 32-bit sums of the code. */
  method EncodeGroup(bytes: seq<u8>, pos: u32, url: bool) returns (g: string)
    requires pos % 3 == 0 && pos < |bytes| < TWO32
    ensures g == Group(bytes[pos..Cut(pos + 3, bytes)], url)
  {
    hide And, Symbol, Group;
    ghost var s := bytes[pos..Cut(pos + 3, bytes)];
    NoWrap(pos, |bytes|);
    var b0 := bytes[pos];
    Masks(b0);
    var c0 := Symbol(And(b0, 0xfc) / 4, url);
    if (pos + 1) % TWO32 >= |bytes| {
      GroupIs(s, 0, 0, url);
      return [c0, Symbol(And(b0, 0x03) * 16, url), Padding(url), Padding(url)];
    }
    var b1 := bytes[(pos + 1) % TWO32];
    Masks(b1);
    var c1 := Symbol(And(b0, 0x03) * 16 + And(b1, 0xf0) / 16, url);
    if (pos + 2) % TWO32 >= |bytes| {
      GroupIs(s, b1, 0, url);
      return [c0, c1, Symbol(And(b1, 0x0f) * 4, url), Padding(url)];
    }
    var b2 := bytes[(pos + 2) % TWO32];
    Masks(b2);
    GroupIs(s, b1, b2, url);
    g := [c0, c1, Symbol(And(b1, 0x0f) * 4 + And(b2, 0xc0) / 64, url), Symbol(And(b2, 0x3f), url)];
  }

  /** 2^32 - 1 is a multiple of 3, so the counter does not wrap on shorter inputs. */
  lemma NoWrap(pos: nat, length: nat)
    requires pos % 3 == 0 && pos < length < TWO32
    ensures pos + 3 < TWO32
    ensures (pos + 1) % TWO32 == pos + 1 && (pos + 2) % TWO32 == pos + 2 && (pos + 3) % TWO32 == pos + 3
  {
  }

  // ---------------------------------------------------------------- decoding

  function After(ret: seq<u8>, rest: Result<seq<u8>>): Result<seq<u8>>
  {
    if rest.Ok? then Ok(ret + rest.value) else Invalid
  }

  lemma DecodedFrom(text: string, pos: nat)
    requires pos < |text|
    ensures
      var first := Octets(text[pos], At(text, pos + 1), At(text, pos + 2), At(text, pos + 3));
      var next := if pos + 4 < |text| then pos + 4 else |text|;
      Decoded(text[pos..]) == if first.Ok? then After(first.value, Decoded(text[next..])) else Invalid
  {
    hide Octets;
    var s := text[pos..];
    var next := if pos + 4 < |text| then pos + 4 else |text|;
    assert s[if |s| < 4 then |s| else 4..] == text[next..];
    assert At(s, 1) == At(text, pos + 1) && At(s, 2) == At(text, pos + 2) && At(s, 3) == At(text, pos + 3);
  }

  lemma AfterAfter(a: seq<u8>, b: seq<u8>, rest: Result<seq<u8>>)
    ensures After(a, After(b, rest)) == After(a + b, rest) && After([], rest) == rest
  {
    if rest.Ok? {
      assert a + (b + rest.value) == a + b + rest.value && [] + rest.value == rest.value;
    }
  }

  method Decode(text: string, removeLinebreaks: bool) returns (r: Result<seq<u8>>)
    ensures r == Decoded(if removeLinebreaks then Without(text, '\n') else text)
    decreases removeLinebreaks
  {
    hide Octets;
    if text == [] { return Ok([]); }
    if removeLinebreaks {
      r := Decode(Without(text, '\n'), false);
      return;
    }
    var pos, ret := 0, [];
    assert text[0..] == text;
    AfterAfter([], [], Decoded(text));
    while pos < |text|
      invariant After(ret, Decoded(text[if pos < |text| then pos else |text|..])) == Decoded(text)
    {
      DecodedFrom(text, pos);
      var group := DecodeGroup(text, pos);
      if group.Invalid? { return Invalid; }
      AfterAfter(ret, group.value, Decoded(text[if pos + 4 < |text| then pos + 4 else |text|..]));
      ret := ret + group.value;
      pos := pos + 4;
    }
    assert ret + [] == ret;
    r := Ok(ret);
  }

  /** One pass of the loop, stopping at the first character that is not valid; no read goes past the
      terminator. */
  method DecodeGroup(text: string, pos: nat) returns (r: Result<seq<u8>>)
    requires pos < |text|
    ensures r == Octets(text[pos], At(text, pos + 1), At(text, pos + 2), At(text, pos + 3))
  {
    hide PosOfChar, Bits, Octet0, Octet1, Octet2;
    NulIsInvalid();
    var p1 := PosOfChar(CharAt(text, pos + 1));
    if p1.Invalid? { return Invalid; }
    var p0 := PosOfChar(text[pos]);
    if p0.Invalid? { return Invalid; }
    var o0 := Octet0(p0.value, p1.value);
    if IsPadding(CharAt(text, pos + 2)) {
      MaskedOctets(p0.value, p1.value, 0, 0);
      return Ok([o0]);
    }
    var p2 := PosOfChar(CharAt(text, pos + 2));
    if p2.Invalid? { return Invalid; }
    var o1 := Octet1(p1.value, p2.value);
    if IsPadding(CharAt(text, pos + 3)) {
      MaskedOctets(p0.value, p1.value, p2.value, 0);
      return Ok([o0, o1]);
    }
    var p3 := PosOfChar(CharAt(text, pos + 3));
    if p3.Invalid? { return Invalid; }
    MaskedOctets(p0.value, p1.value, p2.value, p3.value);
    r := Ok([o0, o1, Octet2(p2.value, p3.value)]);
  }

  /** The octets as the code computes them, cast to `char`. */
  function Octet0(v0: nat, v1: nat): u8 { (v0 * 4 + And(v1, 0x30) / 16) % 0x100 }

  function Octet1(v1: nat, v2: nat): u8 { (And(v1, 0x0f) * 16 + And(v2, 0x3c) / 4) % 0x100 }

  function Octet2(v2: nat, v3: nat): u8 { (And(v2, 0x03) * 64 + v3) % 0x100 }

  lemma MaskedOctets(v0: nat, v1: nat, v2: nat, v3: nat)
    requires v0 < 64 && v1 < 64 && v2 < 64 && v3 < 64
    ensures
      var n := Bits(v0, v1, v2, v3);
      Octet0(v0, v1) == n / 0x1_0000 && Octet1(v1, v2) == n / 0x100 % 0x100 && Octet2(v2, v3) == n % 0x100
  {
    hide Octet0, Octet1, Octet2, Bits;
    MaskedOctet0(v0, v1);
    MaskedOctet1(v1, v2);
    MaskedOctet2(v2, v3);
    OctetsOf(v0, v1, v2, v3);
  }

  lemma SextetMasks(v: nat)
    requires v < 64
    ensures And(v, 0x30) / 16 == v / 16 && And(v, 0x0f) == v % 16
    ensures And(v, 0x3c) / 4 == v / 4 && And(v, 0x03) == v % 4
  {
    hide And;
    Masks(v);
    DivModUnique(v / 16, 4, 0, v / 16);
    DivModUnique(v / 4, 16, 0, v / 4);
  }

  lemma MaskedOctet0(v0: nat, v1: nat)
    requires v0 < 64 && v1 < 64
    ensures Octet0(v0, v1) == v0 * 4 + v1 / 16
  {
    hide And;
    SextetMasks(v1);
    var x := v0 * 4 + v1 / 16;
    DivModUnique(x, 0x100, 0, x);
  }

  lemma MaskedOctet1(v1: nat, v2: nat)
    requires v1 < 64 && v2 < 64
    ensures Octet1(v1, v2) == v1 % 16 * 16 + v2 / 4
  {
    hide And;
    SextetMasks(v1);
    SextetMasks(v2);
    var x := v1 % 16 * 16 + v2 / 4;
    DivModUnique(x, 0x100, 0, x);
  }

  lemma MaskedOctet2(v2: nat, v3: nat)
    requires v2 < 64 && v3 < 64
    ensures Octet2(v2, v3) == v2 % 4 * 64 + v3
  {
    hide And;
    SextetMasks(v2);
    var x := v2 % 4 * 64 + v3;
    DivModUnique(x, 0x100, 0, x);
  }

  // ---------------------------------------------------------------- line breaks

  function Without(s: string, c: char): (r: string)
    ensures c !in r
  {
    if s == [] then [] else if s[0] == c then Without(s[1..], c) else [s[0]] + Without(s[1..], c)
  }

  /** The text cut at each `c`. */
  function Split(s: string, c: char): (parts: seq<string>)
    ensures |parts| > 0
  {
    if s == [] then [[]]
    else
      var rest := Split(s[1..], c);
      if s[0] == c then [[]] + rest else [[s[0]] + rest[0]] + rest[1..]
  }

  function Wrapped(s: string, distance: nat): string
    requires distance > 0
    decreases |s|
  {
    if |s| <= distance then s else s[..distance] + "\n" + Wrapped(s[distance..], distance)
  }

  lemma WrapStep(done: string, left: string, distance: nat)
    requires 0 < distance < |left|
    ensures
      var str, pos, line := done + left, |done| + distance, done + left[..distance] + "\n";
      && str[..pos] + "\n" + str[pos..] == line + left[distance..]
      && line + Wrapped(left[distance..], distance) == done + Wrapped(left, distance)
  {
    var str, pos, line := done + left, |done| + distance, done + left[..distance] + "\n";
    assert str[..pos] == done + left[..distance] && str[pos..] == left[distance..];
    var rest := Wrapped(left[distance..], distance);
    assert line + rest == done + (left[..distance] + "\n" + rest);
  }

  /** Inserting into the string makes it longer, but the part not yet wrapped gets shorter. */
  method InsertLinebreaks(text: string, distance: nat) returns (str: string)
    requires distance > 0
    ensures str == Wrapped(text, distance)
  {
    if |text| == 0 {
      LastLine(text, distance);
      return "";
    }
    str := text;
    var pos := distance;
    hide Wrapped;
    ghost var done, left := "", text;
    while pos < |str|
      invariant str == done + left && pos == |done| + distance
      invariant done + Wrapped(left, distance) == Wrapped(text, distance)
      decreases |left|
    {
      WrapStep(done, left, distance);
      str := str[..pos] + "\n" + str[pos..];
      done, left := done + left[..distance] + "\n", left[distance..];
      pos := pos + distance + 1;
    }
    LastLine(left, distance);
  }

  lemma LastLine(s: string, distance: nat)
    requires |s| <= distance && distance > 0
    ensures Wrapped(s, distance) == s
  {
  }

  lemma {:induction false} WithoutAppend(a: string, b: string, c: char)
    ensures Without(a + b, c) == Without(a, c) + Without(b, c)
  {
    if a == [] {
      assert a + b == b;
    } else {
      assert (a + b)[1..] == a[1..] + b;
      WithoutAppend(a[1..], b, c);
    }
  }

  lemma {:induction false} WithoutNone(s: string, c: char)
    requires c !in s
    ensures Without(s, c) == s
  {
    if s != [] { WithoutNone(s[1..], c); }
  }

  /** Removing the line breaks undoes the wrapping. */
  lemma {:induction false} Unwrapped(s: string, distance: nat)
    requires distance > 0 && '\n' !in s
    ensures Without(Wrapped(s, distance), '\n') == s
    decreases |s|
  {
    if |s| <= distance {
      WithoutNone(s, '\n');
    } else {
      var line, rest := s[..distance], s[distance..];
      Unwrapped(rest, distance);
      WithoutNone(line, '\n');
      WithoutAppend(line + "\n", Wrapped(rest, distance), '\n');
      WithoutAppend(line, "\n", '\n');
    }
  }

  lemma {:induction false} SplitAtFirst(line: string, rest: string, c: char)
    requires c !in line
    ensures Split(line + [c] + rest, c) == [line] + Split(rest, c)
  {
    var s := line + [c] + rest;
    if line == [] {
      assert s[1..] == rest;
    } else {
      assert s[1..] == line[1..] + [c] + rest;
      SplitAtFirst(line[1..], rest, c);
      assert ([line[1..]] + Split(rest, c))[1..] == Split(rest, c);
      assert [line[0]] + line[1..] == line;
    }
  }

  lemma {:induction false} SplitNone(s: string, c: char)
    requires c !in s
    ensures Split(s, c) == [s]
  {
    if s != [] {
      SplitNone(s[1..], c);
      assert [s[0]] + s[1..] == s;
    }
  }

  /** Every line but the last has exactly `distance` characters, and the last is not longer and only
      empty for an empty text. */
  lemma {:induction false} LineLengths(s: string, distance: nat)
    requires distance > 0 && '\n' !in s
    ensures
      var lines := Split(Wrapped(s, distance), '\n');
      && (forall i :: 0 <= i < |lines| - 1 ==> |lines[i]| == distance)
      && |lines[|lines| - 1]| <= distance
      && (s != [] ==> lines[|lines| - 1] != [])
    decreases |s|
  {
    if |s| <= distance {
      SplitNone(s, '\n');
    } else {
      var line, rest := s[..distance], s[distance..];
      LineLengths(rest, distance);
      SplitAtFirst(line, Wrapped(rest, distance), '\n');
    }
  }

  /** PEM and MIME forms: wrapping at 64 or 76 columns, lines as promised, and decoding with
      line-break removal gives the octets back. */
  method EncodeWithLineBreaks(bytes: seq<u8>, lineLength: nat) returns (text: string)
    requires |bytes| < TWO32 && lineLength > 0
    ensures Decoded(Without(text, '\n')) == Ok(bytes)
    ensures Without(text, '\n') == Encoded(bytes, false)
    ensures
      var lines := Split(text, '\n');
      && (forall i :: 0 <= i < |lines| - 1 ==> |lines[i]| == lineLength)
      && |lines[|lines| - 1]| <= lineLength
      && (bytes != [] ==> lines[|lines| - 1] != [])
  {
    var flat := Encode(bytes, false);
    RoundTrip(bytes, false);
    text := InsertLinebreaks(flat, lineLength);
    Unwrapped(flat, lineLength);
    LineLengths(flat, lineLength);
  }
}
