/** Rewriting UTF-8 text point by point, each point in its shortest form. Bit fields are
    written as quotients and remainders. */
module Utf8 {
  import opened Wrappers

  const MAX_POINT := 0x10FFFF

  // ----- one code point

  /** The decoder looks at the first byte only; the rest give their low six bits unchecked. */
  datatype Point = Bad | Point(cp: nat, size: nat)

  function Two(a: nat, b: nat): nat {
    a % 32 * 64 + b % 64
  }

  function Three(a: nat, b: nat, c: nat): nat {
    a % 16 * 4096 + b % 64 * 64 + c % 64
  }

  function Four(a: nat, b: nat, c: nat, d: nat): nat {
    a % 8 * 262144 + b % 64 * 4096 + c % 64 * 64 + d % 64
  }

  function DecodeAt(s: Bytes, i: nat): (p: Point)
    requires i < |s|
    ensures p.Point? ==> 1 <= p.size <= |s| - i
  {
    var b, left := s[i], |s| - i - 1;
    if b < 0x80 then Point(b, 1)
    else if b / 32 == 6 && left >= 1 then Point(Two(b, s[i + 1]), 2)
    else if b / 16 == 14 && left >= 2 then Point(Three(b, s[i + 1], s[i + 2]), 3)
    else if b / 8 == 30 && left >= 3 then Point(Four(b, s[i + 1], s[i + 2], s[i + 3]), 4)
    else Bad
  }

  function Encode(cp: nat): (e: Bytes)
    requires cp <= MAX_POINT
    ensures 1 <= |e| <= 4
  {
    if cp <= 0x7F then [cp]
    else if cp <= 0x7FF then [0xC0 + cp / 64, 0x80 + cp % 64]
    else if cp <= 0xFFFF then [0xE0 + cp / 4096, 0x80 + cp / 64 % 64, 0x80 + cp % 64]
    else [0xF0 + cp / 262144, 0x80 + cp / 4096 % 64, 0x80 + cp / 64 % 64, 0x80 + cp % 64]
  }

  predicate Tail(s: Bytes, i: nat) {
    i < |s| && 0x80 <= s[i] <= 0xBF
  }

  /** The size of the well-formed character at i, by the syntax of RFC 3629 section 4 with the
      surrogates ED A0..BF let in; 0 if there is none. */
  function FormAt(s: Bytes, i: nat): (n: nat)
    requires i < |s|
    ensures i + n <= |s|
  {
    var b := s[i];
    if b <= 0x7F then 1
    else if 0xC2 <= b <= 0xDF && Tail(s, i + 1) then 2
    else if 0xE0 <= b <= 0xEF && Tail(s, i + 1) && Tail(s, i + 2) && (b == 0xE0 ==> s[i + 1] >= 0xA0) then 3
    else if 0xF0 <= b <= 0xF4 && Tail(s, i + 1) && Tail(s, i + 2) && Tail(s, i + 3)
            && (b == 0xF0 ==> s[i + 1] >= 0x90) && (b == 0xF4 ==> s[i + 1] <= 0x8F) then 4
    else 0
  }

  lemma Flags(x: nat)
    ensures x < 64 ==> (0x80 + x) % 64 == x
    ensures x < 32 ==> (0xC0 + x) % 32 == x
    ensures x < 16 ==> (0xE0 + x) % 16 == x
    ensures x < 8 ==> (0xF0 + x) % 8 == x
  {}

  /** The six-bit groups of a number, and the number from its groups. */
  lemma Groups(z: nat, y: nat, x: nat, w: nat)
    requires y < 64 && x < 64 && w < 64
    ensures var cp := z * 262144 + y * 4096 + x * 64 + w;
            cp % 64 == w && cp / 64 % 64 == x && cp / 4096 % 64 == y && cp / 262144 == z
  {
    var cp := z * 262144 + y * 4096 + x * 64 + w;
    assert cp / 64 == z * 4096 + y * 64 + x;
    assert cp / 4096 == z * 64 + y;
  }

  lemma GroupsOf(cp: nat)
    ensures cp == cp / 262144 * 262144 + cp / 4096 % 64 * 4096 + cp / 64 % 64 * 64 + cp % 64
    ensures cp < 0x800 ==> cp / 64 < 32 && cp / 64 % 64 == cp / 64 && cp / 4096 == 0
    ensures cp < 0x1_0000 ==> cp / 4096 < 16 && cp / 4096 % 64 == cp / 4096 && cp / 262144 == 0
  {
    assert cp == cp / 64 * 64 + cp % 64;
    assert cp / 64 == cp / 4096 * 64 + cp / 64 % 64;
    assert cp / 4096 == cp / 262144 * 64 + cp / 4096 % 64;
  }

  lemma TwoOf(cp: nat)
    requires cp <= 0x7FF
    ensures Two(0xC0 + cp / 64, 0x80 + cp % 64) == cp
  {
    GroupsOf(cp);
    Flags(cp / 64);
    Flags(cp % 64);
  }

  lemma ThreeOf(cp: nat)
    requires cp <= 0xFFFF
    ensures Three(0xE0 + cp / 4096, 0x80 + cp / 64 % 64, 0x80 + cp % 64) == cp
  {
    GroupsOf(cp);
    Flags(cp / 4096);
    Flags(cp / 64 % 64);
    Flags(cp % 64);
  }

  lemma FourOf(cp: nat)
    requires cp <= MAX_POINT
    ensures Four(0xF0 + cp / 262144, 0x80 + cp / 4096 % 64, 0x80 + cp / 64 % 64, 0x80 + cp % 64) == cp
  {
    GroupsOf(cp);
    Flags(cp / 262144);
    Flags(cp / 4096 % 64);
    Flags(cp / 64 % 64);
    Flags(cp % 64);
  }

  lemma TwoFields(a: nat, b: nat)
    requires 0xC2 <= a <= 0xDF && 0x80 <= b <= 0xBF
    ensures 0x80 <= Two(a, b) <= 0x7FF && Encode(Two(a, b)) == [a, b]
  {
    Flags(a - 0xC0);
    Flags(b - 0x80);
    Groups(0, 0, a - 0xC0, b - 0x80);
    GroupsOf(Two(a, b));
  }

  lemma ThreeFields(a: nat, b: nat, c: nat)
    requires 0xE0 <= a <= 0xEF && 0x80 <= b <= 0xBF && 0x80 <= c <= 0xBF && (a == 0xE0 ==> b >= 0xA0)
    ensures 0x800 <= Three(a, b, c) <= 0xFFFF && Encode(Three(a, b, c)) == [a, b, c]
  {
    Flags(a - 0xE0);
    Flags(b - 0x80);
    Flags(c - 0x80);
    Groups(0, a - 0xE0, b - 0x80, c - 0x80);
    GroupsOf(Three(a, b, c));
  }

  lemma FourFields(a: nat, b: nat, c: nat, d: nat)
    requires 0xF0 <= a <= 0xF4 && 0x80 <= b <= 0xBF && 0x80 <= c <= 0xBF && 0x80 <= d <= 0xBF
    requires (a == 0xF0 ==> b >= 0x90) && (a == 0xF4 ==> b <= 0x8F)
    ensures 0x1_0000 <= Four(a, b, c, d) <= MAX_POINT && Encode(Four(a, b, c, d)) == [a, b, c, d]
  {
    Flags(a - 0xF0);
    Flags(b - 0x80);
    Flags(c - 0x80);
    Flags(d - 0x80);
    Groups(a - 0xF0, b - 0x80, c - 0x80, d - 0x80);
  }

  /** A point can be read exactly where the first byte is no tail and below 0xF8, and as many bytes
      follow as it asks for. */
  lemma DecodesIff(s: Bytes, i: nat)
    requires i < |s|
    ensures DecodeAt(s, i).Point? <==>
      || s[i] <= 0x7F
      || (0xC0 <= s[i] <= 0xDF && i + 2 <= |s|)
      || (0xE0 <= s[i] <= 0xEF && i + 3 <= |s|)
      || (0xF0 <= s[i] <= 0xF7 && i + 4 <= |s|)
  {}

  /** Of the bytes after the first only the low six bits are read. */
  lemma TailsUnchecked(s: Bytes, s': Bytes, i: nat)
    requires i < |s| == |s'| && s[i] == s'[i] && forall j :: i < j < |s| ==> s[j] % 64 == s'[j] % 64
    ensures DecodeAt(s, i) == DecodeAt(s', i)
  {}

  predicate IsAt(s: Bytes, i: nat, cp: nat)
    requires cp <= MAX_POINT
  {
    i + |Encode(cp)| <= |s| && s[i..i + |Encode(cp)|] == Encode(cp)
  }

  lemma ReadsTwo(s: Bytes, i: nat, cp: nat)
    requires cp <= 0x7FF && IsAt(s, i, cp)
    ensures DecodeAt(s, i) == Point(cp, |Encode(cp)|) && FormAt(s, i) == |Encode(cp)|
  {
    hide Two, Three, Four;
    TwoOf(cp);
    var e := Encode(cp);
    assert s[i] == e[0] && (|e| == 2 ==> s[i + 1] == e[1]);
  }

  lemma ReadsThree(s: Bytes, i: nat, cp: nat)
    requires 0x800 <= cp <= 0xFFFF && IsAt(s, i, cp)
    ensures DecodeAt(s, i) == Point(cp, |Encode(cp)|) && FormAt(s, i) == |Encode(cp)|
  {
    hide Two, Three, Four;
    ThreeOf(cp);
    var e := Encode(cp);
    assert s[i] == e[0] && s[i + 1] == e[1] && s[i + 2] == e[2];
  }

  lemma ReadsFour(s: Bytes, i: nat, cp: nat)
    requires 0x1_0000 <= cp <= MAX_POINT && IsAt(s, i, cp)
    ensures DecodeAt(s, i) == Point(cp, |Encode(cp)|) && FormAt(s, i) == |Encode(cp)|
  {
    hide Two, Three, Four;
    FourOf(cp);
    var e := Encode(cp);
    assert s[i] == e[0] && s[i + 1] == e[1] && s[i + 2] == e[2] && s[i + 3] == e[3];
  }

  /** An encoded point reads back, and is well formed. */
  lemma EncodedReads(s: Bytes, i: nat, cp: nat)
    requires cp <= MAX_POINT && i + |Encode(cp)| <= |s| && s[i..i + |Encode(cp)|] == Encode(cp)
    ensures DecodeAt(s, i) == Point(cp, |Encode(cp)|) && FormAt(s, i) == |Encode(cp)|
  {
    hide Encode, DecodeAt, FormAt;
    if cp <= 0x7FF {
      ReadsTwo(s, i, cp);
    } else if cp <= 0xFFFF {
      ReadsThree(s, i, cp);
    } else {
      ReadsFour(s, i, cp);
    }
  }

  /** A well-formed character is the encoding of the point it decodes to. */
  lemma FormIsEncoded(s: Bytes, i: nat)
    requires i < |s| && FormAt(s, i) > 0
    ensures var p := DecodeAt(s, i);
            && p.Point? && p.cp <= MAX_POINT && p.size == FormAt(s, i)
            && s[i..i + p.size] == Encode(p.cp)
  {
    hide Two, Three, Four, Encode;
    var n := FormAt(s, i);
    if n == 1 {
      OneField(s[i]);
    } else if n == 2 {
      TwoFields(s[i], s[i + 1]);
    } else if n == 3 {
      ThreeFields(s[i], s[i + 1], s[i + 2]);
    } else {
      FourFields(s[i], s[i + 1], s[i + 2], s[i + 3]);
    }
  }

  lemma OneField(b: Byte)
    requires b < 0x80
    ensures Encode(b) == [b]
  {}

  // ----- text

  predicate InRange(cps: seq<nat>) {
    forall k :: 0 <= k < |cps| ==> cps[k] <= MAX_POINT
  }

  function EncodeAll(cps: seq<nat>): Bytes
    requires InRange(cps)
  {
    if cps == [] then [] else Encode(cps[0]) + EncodeAll(cps[1..])
  }

  /** All points from i on, up to the first place that does not decode. */
  datatype Scan = Scan(points: seq<nat>, complete: bool)

  function ScanFrom(s: Bytes, i: nat): Scan
    requires i <= |s|
    decreases |s| - i
  {
    if i == |s| then Scan([], true)
    else
      match DecodeAt(s, i)
      case Bad => Scan([], false)
      case Point(cp, size) =>
        var rest := ScanFrom(s, i + size);
        Scan([cp] + rest.points, rest.complete)
  }

  predicate WellFormedFrom(s: Bytes, i: nat)
    requires i <= |s|
    decreases |s| - i
  {
    i == |s| || (FormAt(s, i) > 0 && WellFormedFrom(s, i + FormAt(s, i)))
  }

  datatype Outcome = Text(text: Bytes) | InvalidUtf8 | InvalidPoint

  function Apply(t: nat -> nat, cps: seq<nat>): (r: seq<nat>)
    ensures |r| == |cps| && forall k :: 0 <= k < |r| ==> r[k] == t(cps[k])
  {
    seq(|cps|, k requires 0 <= k < |cps| => t(cps[k]))
  }

  /** Transform every point, then encode everything. */
  function Rewritten(scan: Scan, t: nat -> nat): Outcome {
    var cps := Apply(t, scan.points);
    if !InRange(cps) then InvalidPoint
    else if !scan.complete then InvalidUtf8
    else Text(EncodeAll(cps))
  }

  function Canonical(s: Bytes, t: nat -> nat): Outcome {
    Rewritten(ScanFrom(s, 0), t)
  }

  function After(sc: Bytes, rest: Outcome): Outcome {
    match rest
    case Text(text) => Text(sc + text)
    case _ => rest
  }

  lemma RewrittenStep(cp: nat, rest: Scan, t: nat -> nat)
    ensures Rewritten(Scan([cp] + rest.points, rest.complete), t)
         == if t(cp) > MAX_POINT then InvalidPoint else After(Encode(t(cp)), Rewritten(rest, t))
  {
    hide Encode;
    var cps := Apply(t, [cp] + rest.points);
    assert cps == [t(cp)] + Apply(t, rest.points);
    if t(cp) > MAX_POINT {
      assert cps[0] > MAX_POINT;
    } else {
      assert cps[1..] == Apply(t, rest.points);
      RangeStep(t(cp), Apply(t, rest.points));
    }
  }

  lemma RangeStep(c: nat, cps: seq<nat>)
    requires c <= MAX_POINT
    ensures InRange([c] + cps) <==> InRange(cps)
  {
    assert forall k :: 0 <= k < |cps| ==> ([c] + cps)[k + 1] == cps[k];
  }

  lemma AfterTwice(a: Bytes, b: Bytes, rest: Outcome)
    ensures After(a, After(b, rest)) == After(a + b, rest)
  {
    if rest.Text? {
      assert a + (b + rest.text) == a + b + rest.text;
    }
  }

  lemma AfterNothing(rest: Outcome)
    ensures After([], rest) == rest
  {
    if rest.Text? {
      assert [] + rest.text == rest.text;
    }
  }

  lemma NothingLeft(sc: Bytes, t: nat -> nat)
    ensures After(sc, Rewritten(Scan([], true), t)) == Text(sc)
  {
    assert Apply(t, []) == [];
  }

  /** One pass, one character at a time: equal to decoding all, then transforming all, then
      encoding all, up to which error comes first. */
  method Utf8Canonical(s: Bytes, t: nat -> nat) returns (r: Outcome)
    ensures r == Canonical(s, t)
  {
    hide DecodeAt, Encode, Rewritten, After;
    var sc: Bytes, ptr := [], 0;
    AfterNothing(Canonical(s, t));
    while ptr < |s|
      invariant ptr <= |s|
      invariant Canonical(s, t) == After(sc, Rewritten(ScanFrom(s, ptr), t))
      decreases |s| - ptr
    {
      var p := DecodeAt(s, ptr);
      if p.Bad? {
        BadHere(sc, t);
        return InvalidUtf8;
      }
      var cp := t(p.cp);
      RewrittenStep(p.cp, ScanFrom(s, ptr + p.size), t);
      if cp > MAX_POINT {
        AfterError(sc);
        return InvalidPoint;
      }
      AfterTwice(sc, Encode(cp), Rewritten(ScanFrom(s, ptr + p.size), t));
      sc := sc + Encode(cp);
      ptr := ptr + p.size;
    }
    NothingLeft(sc, t);
    return Text(sc);
  }

  lemma BadHere(sc: Bytes, t: nat -> nat)
    ensures After(sc, Rewritten(Scan([], false), t)) == InvalidUtf8
  {}

  lemma AfterError(sc: Bytes)
    ensures After(sc, InvalidPoint) == InvalidPoint
  {}

  // ----- what the output is

  lemma {:induction false} ScanEncoded(s: Bytes, i: nat, cps: seq<nat>)
    requires InRange(cps) && i <= |s| && s[i..] == EncodeAll(cps)
    ensures ScanFrom(s, i) == Scan(cps, true) && WellFormedFrom(s, i)
    decreases |cps|
  {
    hide DecodeAt, FormAt, Encode;
    if cps != [] {
      var e := Encode(cps[0]);
      assert s[i..][..|e|] == e && s[i..][|e|..] == EncodeAll(cps[1..]);
      assert s[i..i + |e|] == e && s[i + |e|..] == EncodeAll(cps[1..]);
      EncodedReads(s, i, cps[0]);
      ScanEncoded(s, i + |e|, cps[1..]);
      assert [cps[0]] + cps[1..] == cps;
    }
  }

  lemma {:induction false} WellFormedIsEncoded(s: Bytes, i: nat)
    requires i <= |s| && WellFormedFrom(s, i)
    ensures var scan := ScanFrom(s, i);
            scan.complete && InRange(scan.points) && s[i..] == EncodeAll(scan.points)
    decreases |s| - i
  {
    hide DecodeAt, FormAt, Encode;
    if i < |s| {
      FormIsEncoded(s, i);
      var n := FormAt(s, i);
      WellFormedIsEncoded(s, i + n);
      var rest := ScanFrom(s, i + n).points;
      var cp := DecodeAt(s, i).cp;
      RangeStep(cp, rest);
      assert ([cp] + rest)[1..] == rest;
      assert s[i..] == s[i..i + n] + s[i + n..];
    }
  }

  /** Every output is well formed, and decodes to the transformed points of the input. */
  lemma OutputWellFormed(s: Bytes, t: nat -> nat)
    requires Canonical(s, t).Text?
    ensures var u := Canonical(s, t).text;
            WellFormedFrom(u, 0) && ScanFrom(u, 0) == Scan(Apply(t, ScanFrom(s, 0).points), true)
  {
    var u := Canonical(s, t).text;
    assert u[0..] == u;
    ScanEncoded(u, 0, Apply(t, ScanFrom(s, 0).points));
  }

  /** A transform that settles a point in one step settles a text in one pass. */
  lemma Idempotent(s: Bytes, t: nat -> nat)
    requires Canonical(s, t).Text? && forall c :: t(t(c)) == t(c)
    ensures Canonical(Canonical(s, t).text, t) == Canonical(s, t)
  {
    OutputWellFormed(s, t);
    var cps := Apply(t, ScanFrom(s, 0).points);
    assert Apply(t, cps) == cps;
  }

  /** Without a transform, the text that comes back is the text put in exactly when that text
      was well formed. */
  lemma UnchangedIffWellFormed(s: Bytes)
    ensures Canonical(s, c => c) == Text(s) <==> WellFormedFrom(s, 0)
  {
    var cps := ScanFrom(s, 0).points;
    assert Apply(c => c, cps) == cps;
    if WellFormedFrom(s, 0) {
      WellFormedIsEncoded(s, 0);
      assert s[0..] == s;
    }
    if Canonical(s, c => c) == Text(s) {
      OutputWellFormed(s, c => c);
    }
  }

  /** The syntax of RFC 3629 section 4 as it stands: the same without the surrogates. */
  predicate ValidFrom(s: Bytes, i: nat)
    requires i <= |s|
    decreases |s| - i
  {
    i == |s| || (FormAt(s, i) > 0 && !(s[i] == 0xED && s[i + 1] >= 0xA0) && ValidFrom(s, i + FormAt(s, i)))
  }

  lemma {:induction false} ValidIsWellFormed(s: Bytes, i: nat)
    requires i <= |s| && ValidFrom(s, i)
    ensures WellFormedFrom(s, i)
    decreases |s| - i
  {
    if i < |s| {
      ValidIsWellFormed(s, i + FormAt(s, i));
    }
  }

  /** Valid text comes back unchanged. */
  lemma ValidUnchanged(s: Bytes)
    requires ValidFrom(s, 0)
    ensures Canonical(s, c => c) == Text(s)
  {
    ValidIsWellFormed(s, 0);
    UnchangedIffWellFormed(s);
  }

  /** The two-byte form of 0 comes back as one byte. */
  lemma OverlongShortened()
    ensures Canonical([0xC0, 0x80], c => c) == Text([0])
  {
    var s: Bytes := [0xC0, 0x80];
    assert DecodeAt(s, 0) == Point(0, 2);
    assert ScanFrom(s, 2) == Scan([], true);
    assert ScanFrom(s, 0) == Scan([0] + [], true) == Scan([0], true);
    assert Apply(c => c, [0]) == [0];
    assert EncodeAll([0]) == Encode(0) + EncodeAll([0][1..]) == [0];
  }
}
