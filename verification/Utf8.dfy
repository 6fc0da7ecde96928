/** UTF-8: the encoder of the JSON reader and the validator of launch descriptors. The program's
    masks and shifts are written as the divisions and remainders they are. */
module Utf8 {
  import opened Bytes

  // ---- encoding ----

  function EncodeScalar(cp: nat): (s: bytes)
    requires cp < 0x11_0000
    ensures 1 <= |s| <= 4
  {
    if cp <= 0x7F then [cp]
    else if cp <= 0x7FF then [0xC0 + cp / 64, 0x80 + cp % 64]
    else if cp <= 0xFFFF then [0xE0 + cp / 4096, 0x80 + cp / 64 % 64, 0x80 + cp % 64]
    else [0xF0 + cp / 26_2144, 0x80 + cp / 4096 % 64, 0x80 + cp / 64 % 64, 0x80 + cp % 64]
  }

  /** A Unicode scalar value other than NUL. */
  predicate CleanScalar(cp: nat) {
    0 < cp < 0x11_0000 && !(0xD800 <= cp <= 0xDFFF)
  }

  predicate CleanScalars(cps: seq<nat>) {
    forall i | 0 <= i < |cps| :: CleanScalar(cps[i])
  }

  function EncodeAll(cps: seq<nat>): bytes
    requires CleanScalars(cps)
  {
    if cps == [] then [] else EncodeScalar(cps[0]) + EncodeAll(cps[1..])
  }

  // ---- validating ----

  predicate IsContinuation(b: byte) {
    0x80 <= b < 0xC0
  }

  /** How many bytes the lead byte announces after itself; 4 stands for none possible. */
  function Extra(c: byte): nat {
    if c < 0x80 then 0
    else if 0xC0 <= c < 0xE0 then 1
    else if 0xE0 <= c < 0xF0 then 2
    else if 0xF0 <= c < 0xF8 then 3
    else 4
  }

  /** The bits of the code point carried by the lead byte. */
  function LeadBits(c: byte): nat {
    match Extra(c)
    case 0 => c
    case 1 => c % 32
    case 2 => c % 16
    case _ => c % 8
  }

  /** The code point so far, extended by continuation bytes. */
  function Accumulate(cp: nat, tail: bytes): nat
    decreases |tail|
  {
    if tail == [] then cp else Accumulate(cp * 64 + tail[0] % 64, tail[1..])
  }

  /** The least code point that needs that many bytes. */
  function Least(extra: nat): nat {
    match extra
    case 0 => 1
    case 1 => 0x80
    case 2 => 0x800
    case _ => 0x1_0000
  }

  /** The sequence at the front is well formed: announced length, continuation bytes, no overlong
      form, no surrogate, in range, no NUL. */
  predicate FrontOk(s: bytes) {
    s != [] &&
    var extra := Extra(s[0]);
    && extra <= 3 && extra < |s|
    && (forall k | 1 <= k <= extra :: IsContinuation(s[k]))
    && Least(extra) <= Accumulate(LeadBits(s[0]), s[1..extra + 1]) < 0x11_0000
    && !(0xD800 <= Accumulate(LeadBits(s[0]), s[1..extra + 1]) <= 0xDFFF)
  }

  predicate Clean(s: bytes) {
    s == [] || (FrontOk(s) && Clean(s[Extra(s[0]) + 1..]))
  }

  method IsCleanUtf8(s: bytes) returns (ok: bool)
    ensures ok == Clean(s)
  {
    var i := 0;
    while i < |s|
      invariant 0 <= i <= |s| && Clean(s) == Clean(s[i..])
    {
      var front, length := CheckFront(s[i..]);
      if !front {
        return false;
      }
      assert s[i..][length..] == s[i + length..];
      i := i + length;
    }
    return true;
  }

  /** One turn of the validator: the sequence at the front. */
  method CheckFront(s: bytes) returns (ok: bool, length: nat)
    requires s != []
    ensures ok == FrontOk(s) && (ok ==> length == Extra(s[0]) + 1)
  {
    var c := s[0];
    if c == 0 {
      return false, 0;
    }
    var extra: nat, cp: nat := 0, 0;
    if c < 0x80 {
      extra, cp := 0, c;
    } else if 0xC0 <= c < 0xE0 {
      extra, cp := 1, c % 32;
    } else if 0xE0 <= c < 0xF0 {
      extra, cp := 2, c % 16;
    } else if 0xF0 <= c < 0xF8 {
      extra, cp := 3, c % 8;
    } else {
      return false, 0;
    }
    if extra >= |s| {
      return false, 0;
    }
    var continued;
    continued, cp := Continuations(s, extra, cp);
    if !continued {
      return false, 0;
    }
    if extra == 1 && cp < 0x80 {
      return false, 0;
    }
    if extra == 2 && cp < 0x800 {
      return false, 0;
    }
    if extra == 3 && cp < 0x1_0000 {
      return false, 0;
    }
    if cp > 0x10_FFFF || (cp >= 0xD800 && cp <= 0xDFFF) {
      return false, 0;
    }
    return true, extra + 1;
  }

  method Continuations(s: bytes, extra: nat, lead: nat) returns (ok: bool, cp: nat)
    requires extra < |s|
    ensures ok <==> forall k | 1 <= k <= extra :: IsContinuation(s[k])
    ensures ok ==> cp == Accumulate(lead, s[1..extra + 1])
  {
    cp := lead;
    var k := 1;
    while k <= extra
      invariant 1 <= k <= extra + 1
      invariant forall j | 1 <= j < k :: IsContinuation(s[j])
      invariant Accumulate(cp, s[k..extra + 1]) == Accumulate(lead, s[1..extra + 1])
    {
      var cc := s[k];
      if !(0x80 <= cc < 0xC0) {
        return false, cp;
      }
      assert s[k..extra + 1][1..] == s[k + 1..extra + 1];
      cp := cp * 64 + (cc as int) % 64;
      k := k + 1;
    }
    return true, cp;
  }

  // ---- exactness ----

  /** The code point of a well-formed front. */
  function FrontScalar(s: bytes): nat
    requires FrontOk(s)
  {
    Accumulate(LeadBits(s[0]), s[1..Extra(s[0]) + 1])
  }

  lemma Accumulate1(cp: nat, a: byte)
    ensures Accumulate(cp, [a]) == cp * 64 + a % 64
  {
    assert [a][1..] == [];
  }

  lemma Accumulate2(cp: nat, a: byte, b: byte)
    ensures Accumulate(cp, [a, b]) == (cp * 64 + a % 64) * 64 + b % 64
  {
    assert [a, b][1..] == [b];
    Accumulate1(cp * 64 + a % 64, b);
  }

  lemma Accumulate3(cp: nat, a: byte, b: byte, c: byte)
    ensures Accumulate(cp, [a, b, c]) == ((cp * 64 + a % 64) * 64 + b % 64) * 64 + c % 64
  {
    assert [a, b, c][1..] == [b, c];
    Accumulate2(cp * 64 + a % 64, b, c);
  }

  /** Base-64 digits: splitting a number and putting it together again. */
  lemma Digits2(cp: nat)
    ensures cp == cp / 64 * 64 + cp % 64
    ensures cp / 64 == cp / 4096 * 64 + cp / 64 % 64
    ensures cp / 4096 == cp / 26_2144 * 64 + cp / 4096 % 64
  {
    assert cp / 64 / 64 == cp / 4096;
    assert cp / 4096 / 64 == cp / 26_2144;
  }

  lemma Undigit(hi: nat, lo: nat)
    requires lo < 64
    ensures (hi * 64 + lo) / 64 == hi && (hi * 64 + lo) % 64 == lo
  {
  }

  lemma Undigit3(a: nat, b: nat, c: nat)
    requires b < 64 && c < 64
    ensures var cp := (a * 64 + b) * 64 + c;
            cp / 4096 == a && cp / 64 % 64 == b && cp % 64 == c
  {
    var cp := (a * 64 + b) * 64 + c;
    Undigit(a * 64 + b, c);
    Undigit(a, b);
    assert cp / 4096 == cp / 64 / 64;
  }

  lemma Undigit4(a: nat, b: nat, c: nat, d: nat)
    requires b < 64 && c < 64 && d < 64
    ensures var cp := ((a * 64 + b) * 64 + c) * 64 + d;
            cp / 26_2144 == a && cp / 4096 % 64 == b && cp / 64 % 64 == c && cp % 64 == d
  {
    var cp := ((a * 64 + b) * 64 + c) * 64 + d;
    Undigit((a * 64 + b) * 64 + c, d);
    Undigit3(a, b, c);
    assert cp / 26_2144 == cp / 64 / 4096;
    assert cp / 4096 == cp / 64 / 64;
  }

  /** The bytes of `code` are what the validator wants of a sequence for `cp`. */
  ghost predicate ReadsAs(code: bytes, cp: nat) {
    && code != [] && Extra(code[0]) + 1 == |code|
    && (forall k | 1 <= k < |code| :: IsContinuation(code[k]))
    && Accumulate(LeadBits(code[0]), code[1..]) == cp
    && Least(Extra(code[0])) <= cp
  }

  /** What the encoder writes, the validator reads back. */
  lemma EncodedScalarReads(cp: nat)
    requires CleanScalar(cp)
    ensures ReadsAs(EncodeScalar(cp), cp)
  {
    if cp <= 0x7F {
      assert EncodeScalar(cp)[1..] == [];
    } else if cp <= 0x7FF {
      Encoded2Reads(cp);
    } else if cp <= 0xFFFF {
      Encoded3Reads(cp);
    } else {
      Encoded4Reads(cp);
    }
  }

  lemma Encoded2Reads(cp: nat)
    requires 0x7F < cp <= 0x7FF
    ensures ReadsAs(EncodeScalar(cp), cp)
  {
    var code := EncodeScalar(cp);
    assert code[1..] == [code[1]];
    assert LeadBits(code[0]) == cp / 64 && code[1] % 64 == cp % 64;
    Accumulate1(LeadBits(code[0]), code[1]);
  }

  lemma Encoded3Reads(cp: nat)
    requires 0x7FF < cp <= 0xFFFF
    ensures ReadsAs(EncodeScalar(cp), cp)
  {
    var code := EncodeScalar(cp);
    var a, b, c := cp / 4096, cp / 64 % 64, cp % 64;
    assert cp == (a * 64 + b) * 64 + c by {
      Digits2(cp);
    }
    assert code == [0xE0 + a, 0x80 + b, 0x80 + c] && code[1..] == [code[1], code[2]];
    assert LeadBits(code[0]) == a && code[1] % 64 == b && code[2] % 64 == c;
    Accumulate2(a, code[1], code[2]);
  }

  lemma Encoded4Reads(cp: nat)
    requires 0xFFFF < cp < 0x11_0000
    ensures ReadsAs(EncodeScalar(cp), cp)
  {
    var code := EncodeScalar(cp);
    var a, b, c, d := cp / 26_2144, cp / 4096 % 64, cp / 64 % 64, cp % 64;
    assert cp == ((a * 64 + b) * 64 + c) * 64 + d by {
      Digits2(cp);
    }
    assert code == [0xF0 + a, 0x80 + b, 0x80 + c, 0x80 + d] && code[1..] == [code[1], code[2], code[3]];
    assert LeadBits(code[0]) == a && code[1] % 64 == b && code[2] % 64 == c && code[3] % 64 == d;
    Accumulate3(a, code[1], code[2], code[3]);
  }

  lemma EncodedFrontOk(cp: nat, rest: bytes)
    requires CleanScalar(cp)
    ensures FrontOk(EncodeScalar(cp) + rest)
    ensures Extra(EncodeScalar(cp)[0]) + 1 == |EncodeScalar(cp)|
    ensures FrontScalar(EncodeScalar(cp) + rest) == cp
  {
    var code := EncodeScalar(cp);
    EncodedScalarReads(cp);
    assert (code + rest)[1..|code|] == code[1..];
  }

  /** What the validator accepts at the front is what the encoder writes for that code point. */
  lemma FrontIsEncoded(s: bytes)
    requires FrontOk(s)
    ensures CleanScalar(FrontScalar(s))
    ensures EncodeScalar(FrontScalar(s)) == s[..Extra(s[0]) + 1]
  {
    match Extra(s[0])
    case 0 => assert s[1..1] == [];
    case 1 => FrontIsEncoded2(s);
    case 2 => FrontIsEncoded3(s);
    case _ => FrontIsEncoded4(s);
  }

  lemma Continues(b: byte)
    requires IsContinuation(b)
    ensures b % 64 == b - 0x80
  {
  }

  lemma FrontIsEncoded2(s: bytes)
    requires FrontOk(s) && Extra(s[0]) == 1
    ensures EncodeScalar(FrontScalar(s)) == s[..2]
  {
    var lead: nat, b: nat := s[0] - 0xC0, s[1] - 0x80;
    assert s[1..2] == [s[1]];
    assert LeadBits(s[0]) == lead;
    Continues(s[1]);
    Accumulate1(lead, s[1]);
    Undigit(lead, b);
  }

  lemma FrontIsEncoded3(s: bytes)
    requires FrontOk(s) && Extra(s[0]) == 2
    ensures EncodeScalar(FrontScalar(s)) == s[..3]
  {
    var lead: nat, b: nat, c: nat := s[0] - 0xE0, s[1] - 0x80, s[2] - 0x80;
    assert s[1..3] == [s[1], s[2]];
    assert LeadBits(s[0]) == lead;
    Continues(s[1]);
    Continues(s[2]);
    Accumulate2(lead, s[1], s[2]);
    Undigit3(lead, b, c);
  }

  lemma FrontIsEncoded4(s: bytes)
    requires FrontOk(s) && Extra(s[0]) == 3
    ensures EncodeScalar(FrontScalar(s)) == s[..4]
  {
    var lead: nat, b: nat, c: nat, d: nat := s[0] - 0xF0, s[1] - 0x80, s[2] - 0x80, s[3] - 0x80;
    assert s[1..4] == [s[1], s[2], s[3]];
    assert LeadBits(s[0]) == lead;
    Continues(s[1]);
    Continues(s[2]);
    Continues(s[3]);
    Accumulate3(lead, s[1], s[2], s[3]);
    Undigit4(lead, b, c, d);
    assert s[..4] == [0xF0 + lead, 0x80 + b, 0x80 + c, 0x80 + d];
  }

  lemma {:induction false} EncodedIsClean(cps: seq<nat>)
    requires CleanScalars(cps)
    ensures Clean(EncodeAll(cps))
  {
    if cps != [] {
      var rest := EncodeAll(cps[1..]);
      var code := EncodeScalar(cps[0]);
      EncodedFrontOk(cps[0], rest);
      EncodedIsClean(cps[1..]);
      assert (code + rest)[0] == code[0];
      assert (code + rest)[|code|..] == rest;
    }
  }

  lemma {:induction false} CleanIsEncoded(s: bytes) returns (cps: seq<nat>)
    requires Clean(s)
    ensures CleanScalars(cps) && EncodeAll(cps) == s
  {
    if s == [] {
      cps := [];
    } else {
      var n := Extra(s[0]) + 1;
      FrontIsEncoded(s);
      var rest := CleanIsEncoded(s[n..]);
      cps := [FrontScalar(s)] + rest;
      assert cps[1..] == rest;
      assert s == s[..n] + s[n..];
    }
  }

  /** The decomposition into scalar values is unique. */
  lemma {:induction false} EncodingIsInjective(cps: seq<nat>, others: seq<nat>)
    requires CleanScalars(cps) && CleanScalars(others) && EncodeAll(cps) == EncodeAll(others)
    ensures cps == others
  {
    if cps != [] && others != [] {
      EncodedFrontOk(cps[0], EncodeAll(cps[1..]));
      EncodedFrontOk(others[0], EncodeAll(others[1..]));
      var code := EncodeScalar(cps[0]);
      assert EncodeAll(cps)[|code|..] == EncodeAll(cps[1..]);
      assert EncodeAll(others)[|code|..] == EncodeAll(others[1..]);
      EncodingIsInjective(cps[1..], others[1..]);
      assert cps == [cps[0]] + cps[1..] && others == [others[0]] + others[1..];
    }
  }

  /** UTF-8 validation is exact: a byte string is accepted if and only if it is the encoding of a
      list of nonzero scalar values, and that list is then the only one. */
  lemma CleanExactlyWhenEncoded(s: bytes)
    ensures Clean(s) <==> exists cps :: CleanScalars(cps) && EncodeAll(cps) == s
    ensures forall cps, others | CleanScalars(cps) && CleanScalars(others) &&
                                 EncodeAll(cps) == s && EncodeAll(others) == s :: cps == others
  {
    if Clean(s) {
      var cps := CleanIsEncoded(s);
      assert CleanScalars(cps) && EncodeAll(cps) == s;
    }
    forall cps | CleanScalars(cps) && EncodeAll(cps) == s
      ensures Clean(s)
    {
      EncodedIsClean(cps);
    }
    forall cps, others | CleanScalars(cps) && CleanScalars(others) && EncodeAll(cps) == s && EncodeAll(others) == s
      ensures cps == others
    {
      EncodingIsInjective(cps, others);
    }
  }
}
