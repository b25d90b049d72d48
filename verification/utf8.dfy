/** UTF-8 as Python's `str.encode()` and `bytes.decode()` handle it: the encoding
    form of section 3 of RFC 3629 and the table of well-formed byte sequences of
    its section 4.

    A byte string is a `string` whose characters are all below 256. The strict
    decoder fails on the first ill-formed sequence (`UnicodeDecodeError`); the
    decoder with `errors='ignore'` drops each maximal ill-formed subpart (the
    longest start of a well-formed sequence, or one byte when there is none) and
    carries on, as CPython's decoder does. */
module Utf8 {
  import opened Wrappers
  import opened Text

  /** Every character is a byte. */
  predicate IsBytes(s: string) {
    forall i :: 0 <= i < |s| ==> s[i] as int < 0x100
  }

  /** Every character is ASCII, where text and its encoding coincide. */
  predicate IsAscii(s: string) {
    forall i :: 0 <= i < |s| ==> s[i] as int < 0x80
  }

  predicate IsCont(b: char) {
    0x80 <= b as int <= 0xBF
  }

  /** The length of the sequence that lead byte `b` starts, or 0 when no
      well-formed sequence starts with it (a continuation byte, 0xC0, 0xC1,
      0xF5 to 0xFF). */
  function Width(b: char): (w: nat)
    ensures w <= 4
  {
    var n := b as int;
    if n < 0x80 then 1
    else if 0xC2 <= n <= 0xDF then 2
    else if 0xE0 <= n <= 0xEF then 3
    else if 0xF0 <= n <= 0xF4 then 4
    else 0
  }

  /** Whether `b` may follow `lead` as second byte. The narrowed ranges after
      0xE0 and 0xF0 exclude overlong forms, after 0xED the surrogates, and
      after 0xF4 code points beyond U+10FFFF. */
  predicate SecondFits(lead: char, b: char) {
    var l := lead as int;
    var n := b as int;
    if l == 0xE0 then 0xA0 <= n <= 0xBF
    else if l == 0xED then 0x80 <= n <= 0x9F
    else if l == 0xF0 then 0x90 <= n <= 0xBF
    else if l == 0xF4 then 0x80 <= n <= 0x8F
    else IsCont(b)
  }

  /** How many bytes from `i` on begin a well-formed sequence: the whole
      sequence when it is complete, otherwise the maximal subpart. */
  function Prefix(s: string, i: nat): (n: nat)
    requires i < |s|
    ensures n <= Width(s[i]) && i + n <= |s|
    ensures Width(s[i]) > 0 ==> n >= 1
  {
    var w := Width(s[i]);
    if w <= 1 then w
    else if i + 1 == |s| || !SecondFits(s[i], s[i + 1]) then 1
    else if w == 2 || i + 2 == |s| || !IsCont(s[i + 2]) then 2
    else if w == 3 || i + 3 == |s| || !IsCont(s[i + 3]) then 3
    else 4
  }

  /** A complete, well-formed sequence starts at `i`. */
  predicate WellFormedAt(s: string, i: nat)
    requires i < |s|
  {
    Width(s[i]) > 0 && Prefix(s, i) == Width(s[i])
  }

  /** The code point the well-formed sequence at `i` stands for. */
  function Point(s: string, i: nat): (c: char)
    requires i < |s| && WellFormedAt(s, i)
    ensures Width(s[i]) == 1 ==> c == s[i]
    ensures Width(s[i]) > 1 ==> c as int >= 0x80
  {
    var w := Width(s[i]);
    var b0 := s[i] as int;
    if w == 1 then s[i]
    else if w == 2 then
      ((b0 - 0xC0) * 64 + (s[i + 1] as int - 0x80)) as char
    else if w == 3 then
      ((b0 - 0xE0) * 4096 + (s[i + 1] as int - 0x80) * 64 + (s[i + 2] as int - 0x80)) as char
    else
      ((b0 - 0xF0) * 262144 + (s[i + 1] as int - 0x80) * 4096
        + (s[i + 2] as int - 0x80) * 64 + (s[i + 3] as int - 0x80)) as char
  }

  /** How many bytes the decoder consumes at the start of `s`. */
  function Step(s: string): (n: nat)
    requires s != []
    ensures 1 <= n <= |s|
  {
    if WellFormedAt(s, 0) then Width(s[0])
    else if Prefix(s, 0) == 0 then 1
    else Prefix(s, 0)
  }

  /** `bytes.decode()`: `None` when any sequence is ill-formed or cut short. */
  function Decode(s: string): (r: Option<string>)
    ensures r.Some? ==> |r.value| <= |s|
    decreases |s|
  {
    if s == [] then Some([])
    else if !WellFormedAt(s, 0) then None
    else
      var rest := Decode(s[Step(s)..]);
      if rest.None? then None else Some([Point(s, 0)] + rest.value)
  }

  /** `bytes.decode(errors='ignore')`. */
  function DecodeIgnoring(s: string): (r: string)
    ensures |r| <= |s|
    decreases |s|
  {
    if s == [] then []
    else if WellFormedAt(s, 0) then [Point(s, 0)] + DecodeIgnoring(s[Step(s)..])
    else DecodeIgnoring(s[Step(s)..])
  }

  function Byte(n: int): (b: char)
    requires 0 <= n < 0x100
  {
    n as char
  }

  /** The bytes of one code point. */
  function EncodeChar(c: char): (r: string)
    ensures 1 <= |r| <= 4
  {
    var n := c as int;
    if n < 0x80 then [c]
    else if n < 0x800 then
      [Byte(0xC0 + n / 64), Byte(0x80 + n % 64)]
    else if n < 0x10000 then
      [Byte(0xE0 + n / 4096), Byte(0x80 + n % 4096 / 64), Byte(0x80 + n % 64)]
    else
      [Byte(0xF0 + n / 262144), Byte(0x80 + n % 262144 / 4096),
       Byte(0x80 + n % 4096 / 64), Byte(0x80 + n % 64)]
  }

  /** `str.encode()`. */
  function Encode(s: string): string {
    if s == [] then [] else EncodeChar(s[0]) + Encode(s[1..])
  }

  // ---------------------------------------------------------------------------
  // Encoding then decoding

  lemma Split3(n: int)
    requires 0 <= n
    ensures n == n / 4096 * 4096 + n % 4096 / 64 * 64 + n % 64
  {
    var k, m := n / 4096, n % 4096;
    var a, l := m / 64, m % 64;
    assert n == (k * 64 + a) * 64 + l;
    Digits2(k * 64 + a, l);
  }

  lemma Split4(n: int)
    requires 0 <= n
    ensures n == n / 262144 * 262144 + n % 262144 / 4096 * 4096 + n % 4096 / 64 * 64 + n % 64
  {
    var q, r := n / 262144, n % 262144;
    var h, m := r / 4096, r % 4096;
    assert n == (q * 64 + h) * 4096 + m;
    Digits12(q * 64 + h, m);
    Split3(n);
  }

  /** The bytes of `c` form one well-formed sequence standing for `c`, whatever follows. */
  lemma EncodeCharDecodes(c: char, rest: string)
    ensures var e := EncodeChar(c); var s := e + rest;
      WellFormedAt(s, 0) && Step(s) == |e| && Point(s, 0) == c && s[|e|..] == rest
  {
    var e := EncodeChar(c);
    var s := e + rest;
    var n := c as int;
    assert s[..|e|] == e;
    if n < 0x80 {
    } else if n < 0x800 {
      assert s[0] == e[0] && s[1] == e[1];
    } else if n < 0x10000 {
      assert s[0] == e[0] && s[1] == e[1] && s[2] == e[2];
      Split3(n);
    } else {
      assert s[0] == e[0] && s[1] == e[1] && s[2] == e[2] && s[3] == e[3];
      Split4(n);
    }
  }

  /** Decoding undoes encoding: every string survives `s.encode().decode()`. */
  lemma {:induction false} DecodeEncode(s: string)
    ensures Decode(Encode(s)) == Some(s)
  {
    if s != [] {
      EncodeCharDecodes(s[0], Encode(s[1..]));
      DecodeEncode(s[1..]);
      assert [s[0]] + s[1..] == s;
    }
  }

  /** On input the strict decoder accepts, ignoring errors changes nothing. */
  lemma {:induction false} DecodeIgnoringAgrees(s: string)
    requires Decode(s).Some?
    ensures DecodeIgnoring(s) == Decode(s).value
    decreases |s|
  {
    if s != [] {
      DecodeIgnoringAgrees(s[Step(s)..]);
    }
  }

  lemma DecodeIgnoringEncode(s: string)
    ensures DecodeIgnoring(Encode(s)) == s
  {
    DecodeEncode(s);
    DecodeIgnoringAgrees(Encode(s));
  }

  // ---------------------------------------------------------------------------
  // Structure

  lemma {:induction false} EncodeAppend(a: string, b: string)
    ensures Encode(a + b) == Encode(a) + Encode(b)
  {
    if a != [] {
      assert (a + b)[0] == a[0] && (a + b)[1..] == a[1..] + b;
      EncodeAppend(a[1..], b);
    } else {
      assert a + b == b;
    }
  }

  lemma {:induction false} EncodeAscii(s: string)
    requires IsAscii(s)
    ensures Encode(s) == s
  {
    if s != [] {
      EncodeAscii(s[1..]);
      assert [s[0]] + s[1..] == s;
    }
  }

  /** Encoding keeps an ASCII character out when the text keeps it out: the
      bytes of a non-ASCII code point are all above 0x7F. */
  lemma {:induction false} EncodeAvoids(s: string, c: char)
    requires c as int < 0x80 && Avoids(s, c)
    ensures Avoids(Encode(s), c)
  {
    if s != [] {
      EncodeAvoids(s[1..], c);
      assert Avoids(EncodeChar(s[0]), c);
      AppendAvoids(EncodeChar(s[0]), Encode(s[1..]), c);
    }
  }

  lemma {:induction false} EncodeIsBytes(s: string)
    ensures IsBytes(Encode(s))
  {
    if s != [] {
      EncodeIsBytes(s[1..]);
      var e := EncodeChar(s[0]);
      var t := Encode(s[1..]);
      forall i | 0 <= i < |e + t|
        ensures (e + t)[i] as int < 0x100
      {
        if i >= |e| {
          assert (e + t)[i] == t[i - |e|];
        }
      }
    }
  }

  /** An ASCII prefix decodes to itself, under either decoder. */
  lemma {:induction false} DecodeIgnoringAsciiPrefix(p: string, x: string)
    requires IsAscii(p)
    ensures DecodeIgnoring(p + x) == p + DecodeIgnoring(x)
  {
    if p != [] {
      var s := p + x;
      assert s[0] == p[0];
      assert s[1..] == p[1..] + x;
      DecodeIgnoringAsciiPrefix(p[1..], x);
      assert [p[0]] + p[1..] == p;
    } else {
      assert p + x == x;
    }
  }

  /** The decoder's view of the start of `a` does not change when what follows
      `a` starts with an ASCII byte, because no sequence continues with one. */
  lemma PrefixInLonger(a: string, b: string)
    requires a != []
    requires b == [] || b[0] as int < 0x80
    ensures Prefix(a + b, 0) == Prefix(a, 0)
    ensures WellFormedAt(a + b, 0) == WellFormedAt(a, 0)
    ensures WellFormedAt(a, 0) ==> Point(a + b, 0) == Point(a, 0)
    ensures Step(a + b) == Step(a) && (a + b)[Step(a)..] == a[Step(a)..] + b
  {
    var s := a + b;
    assert forall k :: 0 <= k < |a| ==> s[k] == a[k];
    if b != [] {
      assert s[|a|] == b[0];
    }
    var k := Step(a);
    assert s[k..] == a[k..] + b;
  }

  /** Ignoring errors decodes a concatenation piecewise when the second piece
      starts with an ASCII byte. */
  lemma {:induction false} DecodeIgnoringAppend(a: string, b: string)
    requires b == [] || b[0] as int < 0x80
    ensures DecodeIgnoring(a + b) == DecodeIgnoring(a) + DecodeIgnoring(b)
    decreases |a|
  {
    if a != [] {
      PrefixInLonger(a, b);
      DecodeIgnoringAppend(a[Step(a)..], b);
    } else {
      assert a + b == b;
    }
  }

  /** Ignoring errors never produces an ASCII character the bytes did not hold. */
  lemma {:induction false} DecodeIgnoringAvoids(s: string, c: char)
    requires c as int < 0x80 && Avoids(s, c)
    ensures Avoids(DecodeIgnoring(s), c)
    decreases |s|
  {
    if s != [] {
      var rest := s[Step(s)..];
      assert Avoids(rest, c) by {
        forall i | 0 <= i < |rest|
          ensures rest[i] != c
        {
          assert rest[i] == s[Step(s) + i];
        }
      }
      DecodeIgnoringAvoids(rest, c);
      if WellFormedAt(s, 0) {
        AppendAvoids([Point(s, 0)], DecodeIgnoring(rest), c);
      }
    }
  }

  lemma Digits2(q: int, l: int)
    requires 0 <= l < 64
    ensures (q * 64 + l) / 64 == q && (q * 64 + l) % 64 == l
  {
  }

  lemma Digits12(q: int, l: int)
    requires 0 <= l < 4096
    ensures (q * 4096 + l) / 4096 == q && (q * 4096 + l) % 4096 == l
  {
  }

  lemma Digits3(q: int, m: int, l: int)
    requires 0 <= m < 64 && 0 <= l < 64
    ensures var n := q * 4096 + m * 64 + l;
      n / 4096 == q && n % 4096 / 64 == m && n % 64 == l
  {
    var n := q * 4096 + m * 64 + l;
    assert n == (q * 64 + m) * 64 + l;
    Digits2(q * 64 + m, l);
    Digits2(q, m);
  }

  lemma Digits4(q: int, h: int, m: int, l: int)
    requires 0 <= h < 64 && 0 <= m < 64 && 0 <= l < 64
    ensures var n := q * 262144 + h * 4096 + m * 64 + l;
      n / 262144 == q && n % 262144 / 4096 == h && n % 4096 / 64 == m && n % 64 == l
  {
    var n := q * 262144 + h * 4096 + m * 64 + l;
    assert n == (q * 64 + h) * 4096 + m * 64 + l;
    Digits3(q * 64 + h, m, l);
    Digits2(q, h);
    assert n / 4096 == q * 64 + h;
    assert n % 262144 == h * 4096 + m * 64 + l;
  }

  /** The range checks of the decoder admit exactly the shortest encoding of
      a scalar value: re-encoding a decoded code point gives back its bytes. */
  lemma PointEncodes(s: string)
    requires s != [] && WellFormedAt(s, 0)
    ensures EncodeChar(Point(s, 0)) == s[..Width(s[0])]
  {
    var w := Width(s[0]);
    var b0 := s[0] as int;
    if w == 2 {
      Digits2(b0 - 0xC0, s[1] as int - 0x80);
    } else if w == 3 {
      Digits3(b0 - 0xE0, s[1] as int - 0x80, s[2] as int - 0x80);
    } else if w == 4 {
      Digits4(b0 - 0xF0, s[1] as int - 0x80, s[2] as int - 0x80, s[3] as int - 0x80);
    }
  }

  /** One step of the strict decoder on input it accepts. */
  lemma DecodeCons(s: string)
    requires s != [] && Decode(s).Some?
    ensures WellFormedAt(s, 0) && Step(s) == Width(s[0]) && Decode(s[Step(s)..]).Some?
    ensures Decode(s).value == [Point(s, 0)] + Decode(s[Step(s)..]).value
  {
  }

  lemma EncodeCons(c: char, t: string)
    ensures Encode([c] + t) == EncodeChar(c) + Encode(t)
  {
    assert ([c] + t)[0] == c && ([c] + t)[1..] == t;
  }

  /** Re-encoding what the strict decoder returns gives back its first sequence,
      then the re-encoding of the rest. */
  lemma EncodeDecodeStep(s: string)
    requires s != [] && Decode(s).Some?
    ensures Decode(s[Step(s)..]).Some?
    ensures Encode(Decode(s).value) == s[..Step(s)] + Encode(Decode(s[Step(s)..]).value)
  {
    DecodeCons(s);
    PointEncodes(s);
    EncodeCons(Point(s, 0), Decode(s[Step(s)..]).value);
  }

  /** Encoding undoes strict decoding: the decoder accepts no byte string but
      the encoding of what it returns. */
  lemma {:induction false} EncodeDecode(s: string)
    requires Decode(s).Some?
    ensures Encode(Decode(s).value) == s
    decreases |s|
  {
    if s != [] {
      EncodeDecodeStep(s);
      EncodeDecode(s[Step(s)..]);
      assert s[..Step(s)] + s[Step(s)..] == s;
    }
  }
}
