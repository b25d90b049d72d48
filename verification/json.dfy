/** The JSON the servo bus exchanges: an array of integers.

    `Decode` is `json.loads` restricted to the grammar of RFC 8259 (section 2 for
    whitespace, section 5 for arrays, section 6 for numbers) when every value is an
    integer; `ListRepr` is Python's `str()` of a list of integers, which is how the
    firmware prints `get_positions()` and how `set_positions` and `run_mult` put a
    list into a command. */
module Json {
  import opened Wrappers
  import opened Text

  /** Insignificant whitespace, section 2 of RFC 8259. */
  predicate IsWs(c: char) {
    c == ' ' || c == '\t' || c == '\n' || c == '\r'
  }

  /** Drops leading insignificant whitespace. */
  function SkipWs(s: string): (r: string)
    ensures |r| <= |s|
    ensures r == [] || !IsWs(r[0])
  {
    if s != [] && IsWs(s[0]) then SkipWs(s[1..]) else s
  }

  /** An integer per section 6 of RFC 8259: `-? (0 | [1-9][0-9]*)`, and the text after it. */
  function ParseNumber(s: string): (r: Option<(int, string)>)
    ensures r.Some? ==> |r.value.1| < |s|
  {
    var neg := s != [] && s[0] == '-';
    var t := if neg then s[1..] else s;
    if t == [] || !IsDigit(t[0]) then None
    else if t[0] == '0' then Some((0, t[1..]))
    else
      var n := DigitRun(t);
      var v: int := DigitsValue(t[..n]);
      Some((if neg then -v else v, t[n..]))
  }

  /** The elements of an array after its `[`: `value *( ws , ws value ) ws ]`, and the
      text after the closing bracket. */
  function ParseElements(s: string): (r: Option<(seq<int>, string)>)
    ensures r.Some? ==> |r.value.0| >= 1 && |r.value.1| < |s|
    decreases |s|, 1
  {
    var p := ParseNumber(s);
    if p.None? then None else AfterElement(p.value.0, p.value.1)
  }

  /** What follows an element `n`: either the closing bracket or a comma and more elements. */
  function AfterElement(n: int, rest: string): (r: Option<(seq<int>, string)>)
    ensures r.Some? ==> |r.value.0| >= 1 && |r.value.1| < |rest|
    decreases |rest|, 0
  {
    var r := SkipWs(rest);
    if r == [] then None
    else if r[0] == ']' then Some(([n], r[1..]))
    else if r[0] == ',' then
      var q := ParseElements(SkipWs(r[1..]));
      if q.None? then None else Some(([n] + q.value.0, q.value.1))
    else None
  }

  /** `json.loads(s)` when `s` must hold an array of integers; anything else is
      `Malformed(s)`, never a partial array. */
  function Decode(s: string): (r: Result<seq<int>>)
    ensures r.Err? ==> r.error == Malformed(s)
  {
    var t := SkipWs(s);
    if t == [] || t[0] != '[' then Err(Malformed(s))
    else
      var u := SkipWs(t[1..]);
      if u != [] && u[0] == ']' then
        (if SkipWs(u[1..]) == [] then Ok([]) else Err(Malformed(s)))
      else
        var q := ParseElements(u);
        if q.Some? && SkipWs(q.value.1) == [] then Ok(q.value.0) else Err(Malformed(s))
  }

  /** `str(x)` for every element, in order. */
  function Reprs(xs: seq<int>): (r: seq<string>)
    ensures |r| == |xs|
    ensures forall i :: 0 <= i < |xs| ==> r[i] == IntToString(xs[i])
  {
    if xs == [] then [] else [IntToString(xs[0])] + Reprs(xs[1..])
  }

  /** `str(xs)`: `[` then the elements joined by `, ` then `]`. */
  function ListRepr(xs: seq<int>): string {
    "[" + JoinWith(Reprs(xs), ", ") + "]"
  }

  lemma ParseNumberOfString(n: int, tail: string)
    requires tail == [] || !IsDigit(tail[0])
    ensures ParseNumber(IntToString(n) + tail) == Some((n, tail))
  {
    var m := if n < 0 then -n else n;
    var d := NatToString(m);
    var t := d + tail;
    if n < 0 {
      assert IntToString(n) + tail == "-" + t;
      assert ("-" + t)[1..] == t;
    }
    assert t[0] == d[0];
    if m == 0 {
      assert t[1..] == tail;
    } else {
      DigitRunOfWritten(d, tail);
      assert t[..|d|] == d;
      assert t[|d|..] == tail;
    }
  }

  lemma JoinedReprsStart(xs: seq<int>)
    requires |xs| >= 1
    ensures |xs| == 1 ==> JoinWith(Reprs(xs), ", ") == IntToString(xs[0])
    ensures |xs| > 1 ==> JoinWith(Reprs(xs), ", ") == IntToString(xs[0]) + ", " + JoinWith(Reprs(xs[1..]), ", ")
  {
    assert Reprs(xs)[1..] == Reprs(xs[1..]);
  }

  /** The joined text of a non-empty list starts with the first number's first character. */
  lemma JoinedReprsFirstChar(xs: seq<int>)
    requires |xs| >= 1
    ensures |JoinWith(Reprs(xs), ", ")| >= 1
    ensures JoinWith(Reprs(xs), ", ")[0] == IntToString(xs[0])[0]
  {
    JoinedReprsStart(xs);
  }

  lemma SkipWsStops(s: string)
    requires s == [] || !IsWs(s[0])
    ensures SkipWs(s) == s
  {
  }

  lemma ParseElementsLast(s: string, n: int, after: string)
    requires ParseNumber(s) == Some((n, "]" + after))
    ensures ParseElements(s) == Some(([n], after))
  {
    SkipWsStops("]" + after);
    assert ("]" + after)[1..] == after;
  }

  lemma ParseElementsMore(s: string, n: int, tailText: string, ns: seq<int>, after: string)
    requires ParseNumber(s) == Some((n, ", " + tailText))
    requires tailText != [] && !IsWs(tailText[0])
    requires ParseElements(tailText) == Some((ns, after))
    ensures ParseElements(s) == Some(([n] + ns, after))
  {
    AfterComma(n, tailText, ns, after);
  }

  lemma AfterComma(n: int, tailText: string, ns: seq<int>, after: string)
    requires tailText != [] && !IsWs(tailText[0])
    requires ParseElements(tailText) == Some((ns, after))
    ensures AfterElement(n, ", " + tailText) == Some(([n] + ns, after))
  {
    var r := ", " + tailText;
    SkipWsStops(r);
    assert r[1..] == " " + tailText;
    SkipWsOneSpace(tailText);
  }

  lemma SkipWsOneSpace(t: string)
    requires t != [] && !IsWs(t[0])
    ensures SkipWs(" " + t) == t
  {
    assert (" " + t)[1..] == t;
  }

  lemma ParseElementsOfOne(x: int, rest: string)
    ensures ParseElements(IntToString(x) + "]" + rest) == Some(([x], rest))
  {
    var s := IntToString(x) + "]" + rest;
    Regroup3(IntToString(x), "]", rest);
    ParseNumberOfString(x, "]" + rest);
    ParseElementsLast(s, x, rest);
  }

  lemma ParseElementsOfCons(s: string, x: int, tailText: string, ns: seq<int>, rest: string)
    requires s == IntToString(x) + ", " + tailText
    requires tailText != [] && (tailText[0] == '-' || IsDigit(tailText[0]))
    requires ParseElements(tailText) == Some((ns, rest))
    ensures ParseElements(s) == Some(([x] + ns, rest))
  {
    Regroup3(IntToString(x), ", ", tailText);
    ParseNumberOfString(x, ", " + tailText);
    ParseElementsMore(s, x, tailText, ns, rest);
  }

  lemma ParseElementsOfReprOne(xs: seq<int>, rest: string)
    requires |xs| == 1
    ensures ParseElements(JoinWith(Reprs(xs), ", ") + "]" + rest) == Some((xs, rest))
  {
    JoinedReprsStart(xs);
    ParseElementsOfOne(xs[0], rest);
    assert [xs[0]] == xs;
  }

  lemma ParseElementsOfReprStep(xs: seq<int>, rest: string)
    requires |xs| >= 2
    requires ParseElements(JoinWith(Reprs(xs[1..]), ", ") + "]" + rest) == Some((xs[1..], rest))
    ensures ParseElements(JoinWith(Reprs(xs), ", ") + "]" + rest) == Some((xs, rest))
  {
    var J := JoinWith(Reprs(xs[1..]), ", ");
    var tailText := J + "]" + rest;
    var s := JoinWith(Reprs(xs), ", ") + "]" + rest;
    assert s == IntToString(xs[0]) + ", " + tailText by {
      JoinedReprsStart(xs);
      Regroup(IntToString(xs[0]), ", ", J, "]", rest);
    }
    assert tailText != [] && (tailText[0] == '-' || IsDigit(tailText[0])) by {
      JoinedReprsFirstChar(xs[1..]);
      assert tailText[0] == J[0];
    }
    ParseElementsOfCons(s, xs[0], tailText, xs[1..], rest);
    assert [xs[0]] + xs[1..] == xs;
  }

  lemma {:induction false} ParseElementsOfRepr(xs: seq<int>, rest: string)
    requires |xs| >= 1
    ensures ParseElements(JoinWith(Reprs(xs), ", ") + "]" + rest) == Some((xs, rest))
    decreases |xs|
  {
    if |xs| == 1 {
      ParseElementsOfReprOne(xs, rest);
    } else {
      ParseElementsOfRepr(xs[1..], rest);
      ParseElementsOfReprStep(xs, rest);
    }
  }

  lemma DecodeOfElements(s: string, body: string, xs: seq<int>)
    requires s == "[" + body
    requires body != [] && !IsWs(body[0]) && body[0] != ']'
    requires ParseElements(body) == Some((xs, ""))
    ensures Decode(s) == Ok(xs)
  {
    SkipWsStops(s);
    assert s[1..] == body;
    SkipWsStops(body);
  }

  lemma DecodeEmptyList(s: string)
    requires s == "[" + "]"
    ensures Decode(s) == Ok([])
  {
    SkipWsStops(s);
    assert s[1..] == "]";
    SkipWsStops(s[1..]);
    assert s[1..][1..] == [];
  }

  lemma ListReprShape(xs: seq<int>)
    ensures ListRepr(xs) == "[" + (JoinWith(Reprs(xs), ", ") + "]")
  {
    Regroup3("[", JoinWith(Reprs(xs), ", "), "]");
  }

  lemma DecodeListReprNonEmpty(xs: seq<int>)
    requires xs != []
    ensures Decode(ListRepr(xs)) == Ok(xs)
  {
    var body := JoinWith(Reprs(xs), ", ") + "]";
    ListReprShape(xs);
    ParseElementsOfRepr(xs, "");
    assert JoinWith(Reprs(xs), ", ") + "]" + "" == body;
    JoinedReprsFirstChar(xs);
    DecodeOfElements(ListRepr(xs), body, xs);
  }

  /** Decoding what `str()` prints for a list of integers gives back the list. */
  lemma DecodeListRepr(xs: seq<int>)
    ensures Decode(ListRepr(xs)) == Ok(xs)
  {
    if xs == [] {
      assert ListRepr(xs) == "[" + "]";
      DecodeEmptyList(ListRepr(xs));
    } else {
      DecodeListReprNonEmpty(xs);
    }
  }

  /** A character that `str()` of an integer list never prints. */
  predicate NotInListText(c: char) {
    !IsDigit(c) && c != '-' && c != '[' && c != ']' && c != ',' && c != ' '
  }

  lemma IntTextAvoids(n: int, c: char)
    requires !IsDigit(c) && c != '-'
    ensures Avoids(IntToString(n), c)
  {
  }

  /** `str(xs)` is made of digits, signs, brackets, commas and spaces only. */
  lemma ListReprAvoids(xs: seq<int>, c: char)
    requires NotInListText(c)
    ensures Avoids(ListRepr(xs), c)
  {
    var rs := Reprs(xs);
    forall i | 0 <= i < |rs|
      ensures Avoids(rs[i], c)
    {
      IntTextAvoids(xs[i], c);
    }
    JoinAvoids(rs, ", ", c);
    AppendAvoids("[", JoinWith(rs, ", "), c);
    AppendAvoids("[" + JoinWith(rs, ", "), "]", c);
  }
}
