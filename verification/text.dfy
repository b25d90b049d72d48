/** Python string operations used by the source, with Python's semantics:
    `str.find` returning -1, slicing with negative indices, `str.split` with and
    without a separator, `str.removesuffix`, `str(int)` and `int(str)`. */
module Text {
  import opened Wrappers

  // ---------------------------------------------------------------------------
  // Searching

  /** `pat` occurs in `s` starting at offset `k`. */
  predicate OccursAt(s: string, pat: string, k: int) {
    0 <= k && k + |pat| <= |s| && s[k..k + |pat|] == pat
  }

  /** `s.find(pat, i)`: the first offset at or after `i` where `pat` occurs, or -1. */
  function FindFrom(s: string, pat: string, i: nat): (r: int)
    ensures r == -1 || (i <= r && OccursAt(s, pat, r))
    ensures forall k :: i <= k && (r == -1 || k < r) ==> !OccursAt(s, pat, k)
    decreases |s| - i
  {
    if i + |pat| > |s| then -1
    else if s[i..i + |pat|] == pat then i
    else FindFrom(s, pat, i + 1)
  }

  /** `s.find(pat)`. */
  function Find(s: string, pat: string): (r: int)
    ensures r == -1 || OccursAt(s, pat, r)
    ensures forall k :: 0 <= k && (r == -1 || k < r) ==> !OccursAt(s, pat, k)
  {
    FindFrom(s, pat, 0)
  }

  /** `pat in s`. */
  predicate Contains(s: string, pat: string) {
    Find(s, pat) >= 0
  }

  lemma ContainsWhenOccurs(s: string, pat: string, k: int)
    requires OccursAt(s, pat, k)
    ensures Contains(s, pat)
  {
  }

  /** Two patterns occurring back to back make their concatenation occur. */
  lemma ContainsJoined(s: string, x: string, y: string, k: int)
    requires OccursAt(s, x, k) && OccursAt(s, y, k + |x|)
    ensures Contains(s, x + y)
  {
    assert s[k..k + |x| + |y|] == s[k..k + |x|] + s[k + |x|..k + |x| + |y|];
    ContainsWhenOccurs(s, x + y, k);
  }

  /** In `a + x + b + y + c`, `x` occurs right after `a` and `y` right after `a + x + b`. */
  lemma OccursBetween(a: string, x: string, b: string, y: string, c: string)
    ensures OccursAt(a + x + b + y + c, x, |a|)
    ensures OccursAt(a + x + b + y + c, y, |a| + |x| + |b|)
  {
    var s := a + x + b + y + c;
    assert s[|a|..|a| + |x|] == x;
    assert s[|a| + |x| + |b|..|a| + |x| + |b| + |y|] == y;
  }

  lemma OccursAtChar(s: string, pat: string, k: int, j: nat)
    requires OccursAt(s, pat, k) && j < |pat|
    ensures s[k + j] == pat[j]
  {
    assert s[k..k + |pat|][j] == s[k + j];
  }

  /** A pattern one of whose characters `s` lacks does not occur in `s`. */
  lemma AbsentCharNotContained(s: string, pat: string, j: nat)
    requires j < |pat| && forall i :: 0 <= i < |s| ==> s[i] != pat[j]
    ensures !Contains(s, pat)
  {
    var k := Find(s, pat);
    if k >= 0 {
      OccursAtChar(s, pat, k, j);
    }
  }

  lemma OccursInPrefix(s: string, pat: string, n: nat, k: int)
    requires n <= |s|
    requires OccursAt(s[..n], pat, k)
    ensures OccursAt(s, pat, k)
  {
    assert s[..n][k..k + |pat|] == s[k..k + |pat|];
  }

  /** The text before the first occurrence of `pat` does not contain `pat`. */
  lemma NotInFirstPart(s: string, pat: string)
    requires pat != [] && Find(s, pat) >= 0
    ensures !Contains(s[..Find(s, pat)], pat)
  {
    var n := Find(s, pat);
    var j := Find(s[..n], pat);
    if j >= 0 {
      OccursInPrefix(s, pat, n, j);
    }
  }

  predicate StartsWith(s: string, prefix: string) {
    |prefix| <= |s| && s[..|prefix|] == prefix
  }

  predicate EndsWith(s: string, suffix: string) {
    |suffix| <= |s| && s[|s| - |suffix|..] == suffix
  }

  /** `s.removesuffix(suffix)`. */
  function RemoveSuffix(s: string, suffix: string): (r: string)
    ensures EndsWith(s, suffix) ==> r + suffix == s
    ensures !EndsWith(s, suffix) ==> r == s
  {
    if EndsWith(s, suffix) then s[..|s| - |suffix|] else s
  }

  lemma RemoveSuffixOfAppended(s: string, suffix: string)
    ensures EndsWith(s + suffix, suffix)
    ensures RemoveSuffix(s + suffix, suffix) == s
  {
    assert (s + suffix)[|s|..] == suffix;
    assert (s + suffix)[..|s|] == s;
  }

  // ---------------------------------------------------------------------------
  // Slicing

  /** Python's normalisation of a slice bound against a length `n`. */
  function SliceBound(i: int, n: nat): (b: nat)
    ensures b <= n
    ensures 0 <= i <= n ==> b == i
    ensures i < 0 && i + n >= 0 ==> b == i + n
    ensures i + n < 0 ==> b == 0
    ensures i > n ==> b == n
  {
    if i < 0 then (if i + n < 0 then 0 else i + n)
    else if i > n then n
    else i
  }

  /** `s[i:j]`. */
  function Slice(s: string, i: int, j: int): (r: string)
    ensures |r| <= |s|
    ensures SliceBound(i, |s|) < SliceBound(j, |s|) ==> r == s[SliceBound(i, |s|)..SliceBound(j, |s|)]
    ensures SliceBound(i, |s|) >= SliceBound(j, |s|) ==> r == []
  {
    var a := SliceBound(i, |s|);
    var b := SliceBound(j, |s|);
    if a < b then s[a..b] else []
  }

  // ---------------------------------------------------------------------------
  // Splitting with a separator

  /** Regrouping a concatenation, stated once so that proofs need not rediscover it. */
  lemma Regroup3(a: string, b: string, c: string)
    ensures a + b + c == a + (b + c)
  {
  }

  lemma Regroup(a: string, b: string, c: string, d: string, e: string)
    ensures a + b + c + d + e == a + b + (c + d + e)
  {
  }

  /** `s.split(sep)` for a non-empty separator. */
  function SplitOn(s: string, sep: string): (parts: seq<string>)
    requires sep != []
    ensures |parts| >= 1
    ensures forall i :: 0 <= i < |parts| ==> !Contains(parts[i], sep)
    decreases |s|
  {
    var k := Find(s, sep);
    if k < 0 then [s]
    else
      NotInFirstPart(s, sep);
      [s[..k]] + SplitOn(s[k + |sep|..], sep)
  }

  /** `sep.join(parts)`. */
  function JoinWith(parts: seq<string>, sep: string): string {
    if |parts| == 0 then ""
    else if |parts| == 1 then parts[0]
    else parts[0] + sep + JoinWith(parts[1..], sep)
  }

  lemma JoinCons(a: string, tail: seq<string>, sep: string)
    requires |tail| >= 1
    ensures JoinWith([a] + tail, sep) == a + sep + JoinWith(tail, sep)
  {
    assert ([a] + tail)[1..] == tail;
  }

  lemma AppendAvoids(a: string, b: string, c: char)
    requires Avoids(a, c) && Avoids(b, c)
    ensures Avoids(a + b, c)
  {
    forall i | 0 <= i < |a + b|
      ensures (a + b)[i] != c
    {
      if i >= |a| {
        assert (a + b)[i] == b[i - |a|];
      }
    }
  }

  /** Joining pieces that avoid a character with a separator that avoids it avoids it. */
  lemma {:induction false} JoinAvoids(parts: seq<string>, sep: string, c: char)
    requires forall i :: 0 <= i < |parts| ==> Avoids(parts[i], c)
    requires Avoids(sep, c)
    ensures Avoids(JoinWith(parts, sep), c)
    decreases |parts|
  {
    if |parts| > 1 {
      assert forall i :: 0 <= i < |parts[1..]| ==> Avoids(parts[1..][i], c) by {
        forall i | 0 <= i < |parts[1..]|
          ensures Avoids(parts[1..][i], c)
        {
          assert parts[1..][i] == parts[i + 1];
        }
      }
      JoinAvoids(parts[1..], sep, c);
      AppendAvoids(parts[0], sep, c);
      AppendAvoids(parts[0] + sep, JoinWith(parts[1..], sep), c);
    }
  }

  lemma FirstCharOfOccurrence(s: string, pat: string, k: int)
    requires pat != [] && OccursAt(s, pat, k)
    ensures s[k] == pat[0]
  {
    assert s[k..k + |pat|][0] == s[k];
  }

  /** No character of `p` is `c`. */
  predicate Avoids(p: string, c: char) {
    forall i :: 0 <= i < |p| ==> p[i] != c
  }

  /** Text free of `sep[0]` is cut by `split(sep)` exactly where `sep` was put between. */
  lemma FindAfterFree(p: string, sep: string, rest: string)
    requires sep != [] && Avoids(p, sep[0])
    ensures Find(p + sep + rest, sep) == |p|
  {
    var s := p + sep + rest;
    assert s[|p|..|p| + |sep|] == sep;
    assert OccursAt(s, sep, |p|);
    var r := Find(s, sep);
    if 0 <= r < |p| {
      FirstCharOfOccurrence(s, sep, r);
    }
  }

  lemma FindAbsentWhenFree(p: string, sep: string)
    requires sep != [] && Avoids(p, sep[0])
    ensures Find(p, sep) == -1
  {
    var r := Find(p, sep);
    if r >= 0 {
      FirstCharOfOccurrence(p, sep, r);
    }
  }

  /** One step of `split`: cutting at the first occurrence. */
  lemma SplitOnStep(s: string, p: string, sep: string, rest: string)
    requires sep != [] && s == p + sep + rest && Find(s, sep) == |p|
    ensures SplitOn(s, sep) == [p] + SplitOn(rest, sep)
  {
    assert s[..|p|] == p;
    assert s[|p| + |sep|..] == rest;
  }

  /** Joining the pieces of a split with the same separator gives back the text. */
  lemma {:induction false} JoinSplit(s: string, sep: string)
    requires sep != []
    ensures JoinWith(SplitOn(s, sep), sep) == s
    decreases |s|
  {
    var k := Find(s, sep);
    if k >= 0 {
      var p := s[..k];
      var rest := s[k + |sep|..];
      assert s == p + sep + rest by {
        assert s[k..k + |sep|] == sep;
        assert s == s[..k] + s[k..k + |sep|] + rest;
      }
      SplitOnStep(s, p, sep, rest);
      JoinSplit(rest, sep);
      JoinCons(p, SplitOn(rest, sep), sep);
    }
  }

  /** Splitting the join of pieces that never contain the separator's first character
      gives back the pieces. */
  lemma {:induction false} SplitJoin(parts: seq<string>, sep: string)
    requires sep != [] && |parts| >= 1
    requires forall i :: 0 <= i < |parts| ==> Avoids(parts[i], sep[0])
    ensures SplitOn(JoinWith(parts, sep), sep) == parts
    decreases |parts|
  {
    if |parts| == 1 {
      FindAbsentWhenFree(parts[0], sep);
    } else {
      var rest := JoinWith(parts[1..], sep);
      var s := parts[0] + sep + rest;
      assert JoinWith(parts, sep) == s;
      FindAfterFree(parts[0], sep, rest);
      SplitOnStep(s, parts[0], sep, rest);
      assert forall i :: 0 <= i < |parts[1..]| ==> Avoids(parts[1..][i], sep[0]) by {
        forall i | 0 <= i < |parts[1..]|
          ensures Avoids(parts[1..][i], sep[0])
        {
          assert parts[1..][i] == parts[i + 1];
        }
      }
      SplitJoin(parts[1..], sep);
      assert parts == [parts[0]] + parts[1..];
    }
  }

  // ---------------------------------------------------------------------------
  // Removing a character

  /** `s.replace(c, '')` for a one-character `c`. */
  function RemoveChar(s: string, c: char): (r: string)
    ensures |r| <= |s|
    ensures Avoids(r, c)
    ensures Avoids(s, c) ==> r == s
  {
    if s == [] then []
    else if s[0] == c then RemoveChar(s[1..], c)
    else [s[0]] + RemoveChar(s[1..], c)
  }

  /** Removing one character never brings in another. */
  lemma {:induction false} RemoveCharKeepsAbsent(s: string, c: char, d: char)
    requires Avoids(s, d)
    ensures Avoids(RemoveChar(s, c), d)
    decreases |s|
  {
    if s != [] {
      assert Avoids(s[1..], d) by {
        forall i | 0 <= i < |s[1..]|
          ensures s[1..][i] != d
        {
          assert s[1..][i] == s[i + 1];
        }
      }
      RemoveCharKeepsAbsent(s[1..], c, d);
    }
  }

  /** Removing a character from a concatenation removes it from each part. */
  lemma {:induction false} RemoveCharAppend(a: string, b: string, c: char)
    ensures RemoveChar(a + b, c) == RemoveChar(a, c) + RemoveChar(b, c)
    decreases |a|
  {
    if a == [] {
      assert a + b == b;
    } else {
      assert (a + b)[1..] == a[1..] + b;
      RemoveCharAppend(a[1..], b, c);
    }
  }

  // ---------------------------------------------------------------------------
  // Whitespace

  /** The characters Python's `str.split()` and `str.strip()` treat as whitespace. */
  predicate IsSpace(c: char) {
    || c == ' '
    || ('\t' <= c <= '\r')
    || ('\U{1C}' <= c <= '\U{1F}')
    || c == '\U{85}' || c == '\U{A0}' || c == '\U{1680}'
    || ('\U{2000}' <= c <= '\U{200A}')
    || c == '\U{2028}' || c == '\U{2029}' || c == '\U{202F}' || c == '\U{205F}' || c == '\U{3000}'
  }

  predicate NoSpace(s: string) {
    forall i :: 0 <= i < |s| ==> !IsSpace(s[i])
  }

  /** Number of leading whitespace characters. */
  function SpaceRun(s: string): (n: nat)
    ensures n <= |s|
    ensures forall i :: 0 <= i < n ==> IsSpace(s[i])
    ensures n < |s| ==> !IsSpace(s[n])
  {
    if s == [] || !IsSpace(s[0]) then 0 else 1 + SpaceRun(s[1..])
  }

  /** Number of leading non-whitespace characters. */
  function WordRun(s: string): (n: nat)
    ensures n <= |s|
    ensures forall i :: 0 <= i < n ==> !IsSpace(s[i])
    ensures n < |s| ==> IsSpace(s[n])
  {
    if s == [] || IsSpace(s[0]) then 0 else 1 + WordRun(s[1..])
  }

  /** `s.split()`: the maximal runs of non-whitespace characters, in order. */
  function SplitWhitespace(s: string): (parts: seq<string>)
    ensures forall i :: 0 <= i < |parts| ==> parts[i] != [] && NoSpace(parts[i])
    decreases |s|
  {
    var t := s[SpaceRun(s)..];
    if t == [] then []
    else
      var n := WordRun(t);
      [t[..n]] + SplitWhitespace(t[n..])
  }

  function Concat(parts: seq<string>): string {
    if parts == [] then "" else parts[0] + Concat(parts[1..])
  }

  /** The non-whitespace characters of `s`, in order. */
  function DropSpaces(s: string): string {
    if s == [] then ""
    else if IsSpace(s[0]) then DropSpaces(s[1..])
    else [s[0]] + DropSpaces(s[1..])
  }

  lemma {:induction false} DropSpacesAppend(a: string, b: string)
    ensures DropSpaces(a + b) == DropSpaces(a) + DropSpaces(b)
    decreases |a|
  {
    if a != [] {
      assert (a + b)[1..] == a[1..] + b;
      DropSpacesAppend(a[1..], b);
    } else {
      assert a + b == b;
    }
  }

  lemma {:induction false} DropSpacesOfSpaces(s: string, n: nat)
    requires n <= |s| && forall i :: 0 <= i < n ==> IsSpace(s[i])
    ensures DropSpaces(s[..n]) == ""
    decreases n
  {
    if n > 0 {
      assert s[..n][1..] == s[1..][..n - 1];
      DropSpacesOfSpaces(s[1..], n - 1);
    }
  }

  lemma {:induction false} DropSpacesOfWord(s: string)
    requires NoSpace(s)
    ensures DropSpaces(s) == s
    decreases |s|
  {
    if s != [] {
      DropSpacesOfWord(s[1..]);
      assert s == [s[0]] + s[1..];
    }
  }

  lemma DropLeadingSpaces(s: string)
    ensures DropSpaces(s) == DropSpaces(s[SpaceRun(s)..])
  {
    var k := SpaceRun(s);
    assert s == s[..k] + s[k..];
    DropSpacesAppend(s[..k], s[k..]);
    DropSpacesOfSpaces(s, k);
  }

  lemma DropLeadingWord(t: string)
    ensures DropSpaces(t) == t[..WordRun(t)] + DropSpaces(t[WordRun(t)..])
  {
    var n := WordRun(t);
    assert t == t[..n] + t[n..];
    DropSpacesAppend(t[..n], t[n..]);
    DropSpacesOfWord(t[..n]);
  }

  /** Splitting on whitespace loses exactly the whitespace: the pieces glued together
      are the non-whitespace characters of the text. */
  lemma {:induction false} SplitWhitespaceKeepsText(s: string)
    ensures Concat(SplitWhitespace(s)) == DropSpaces(s)
    decreases |s|
  {
    DropLeadingSpaces(s);
    var t := s[SpaceRun(s)..];
    if t != [] {
      var n := WordRun(t);
      DropLeadingWord(t);
      SplitWhitespaceKeepsText(t[n..]);
      var parts := SplitWhitespace(s);
      assert parts == [t[..n]] + SplitWhitespace(t[n..]);
      assert parts[1..] == SplitWhitespace(t[n..]);
    }
  }

  /** `s.strip()`. */
  function Strip(s: string): (r: string)
    ensures |r| <= |s|
    ensures r != [] ==> !IsSpace(r[0]) && !IsSpace(r[|r| - 1])
    decreases |s|
  {
    if s == [] then s
    else if IsSpace(s[0]) then Strip(s[1..])
    else if IsSpace(s[|s| - 1]) then Strip(s[..|s| - 1])
    else s
  }

  // ---------------------------------------------------------------------------
  // Case

  /** `c.lower()` for ASCII letters. */
  function LowerChar(c: char): (r: char)
    ensures 'A' <= c <= 'Z' ==> r as int == c as int + 32
    ensures !('A' <= c <= 'Z') ==> r == c
  {
    if 'A' <= c <= 'Z' then (c as int + 32) as char else c
  }

  /** `str.lower()` restricted to ASCII letters. */
  function Lower(s: string): (r: string)
    ensures |r| == |s| && forall i :: 0 <= i < |s| ==> r[i] == LowerChar(s[i])
  {
    if s == [] then [] else [LowerChar(s[0])] + Lower(s[1..])
  }

  /** Lower-casing cannot produce the lower-case letter `c` from a text holding
      neither `c` nor its upper-case form `upper`. */
  lemma LowerAvoids(s: string, c: char, upper: char)
    requires 'a' <= c <= 'z' && upper as int == c as int - 32
    requires forall i :: 0 <= i < |s| ==> s[i] != c && s[i] != upper
    ensures forall i :: 0 <= i < |Lower(s)| ==> Lower(s)[i] != c
  {
  }

  // ---------------------------------------------------------------------------
  // Decimal numbers

  predicate IsDigit(c: char) {
    '0' <= c <= '9'
  }

  predicate AllDigits(s: string) {
    forall i :: 0 <= i < |s| ==> IsDigit(s[i])
  }

  function DigitChar(d: int): (c: char)
    requires 0 <= d < 10
    ensures IsDigit(c) && c as int - '0' as int == d
  {
    ('0' as int + d) as char
  }

  /** The value of a string of decimal digits. */
  function DigitsValue(s: string): nat
    requires AllDigits(s)
  {
    if s == [] then 0 else DigitsValue(s[..|s| - 1]) * 10 + (s[|s| - 1] as int - '0' as int)
  }

  /** `str(n)` for a natural number: its decimal digits, without leading zeros. */
  function NatToString(n: nat): (s: string)
    ensures |s| >= 1 && AllDigits(s)
    ensures DigitsValue(s) == n
    ensures s[0] == '0' <==> n == 0
    ensures n == 0 ==> s == "0"
    decreases n
  {
    if n < 10 then [DigitChar(n)]
    else
      var s := NatToString(n / 10) + [DigitChar(n % 10)];
      assert s[..|s| - 1] == NatToString(n / 10);
      s
  }

  /** `str(n)` for an integer. */
  function IntToString(n: int): (s: string)
    ensures |s| >= 1
    ensures n >= 0 ==> s == NatToString(n)
    ensures n < 0 ==> s == "-" + NatToString(-n)
    ensures forall i :: 0 <= i < |s| ==> IsDigit(s[i]) || s[i] == '-'
  {
    if n < 0 then "-" + NatToString(-n) else NatToString(n)
  }

  /** Length of the run of decimal digits at the start of `s`. */
  function DigitRun(s: string): (n: nat)
    ensures n <= |s|
    ensures AllDigits(s[..n])
    ensures n < |s| ==> !IsDigit(s[n])
  {
    if s == [] || !IsDigit(s[0]) then 0
    else
      var n := 1 + DigitRun(s[1..]);
      assert s[..n] == [s[0]] + s[1..][..n - 1];
      n
  }

  /** The digit run of a number written out in front of a non-digit is exactly that number. */
  lemma {:induction false} DigitRunOfWritten(d: string, rest: string)
    requires AllDigits(d)
    requires rest == [] || !IsDigit(rest[0])
    ensures DigitRun(d + rest) == |d|
    decreases |d|
  {
    if d == [] {
      assert d + rest == rest;
    } else {
      assert (d + rest)[1..] == d[1..] + rest;
      DigitRunOfWritten(d[1..], rest);
    }
  }

  /** `int(s)` for the forms the firmware sends: optional surrounding whitespace,
      an optional sign and ASCII digits. */
  function ParseInt(s: string): (r: Option<int>)
    ensures r.Some? ==> Strip(s) != []
  {
    var t := Strip(s);
    if t == [] then None
    else
      var neg := t[0] == '-';
      var body := if t[0] == '-' || t[0] == '+' then t[1..] else t;
      if body == [] || !AllDigits(body) then None
      else Some(if neg then -(DigitsValue(body) as int) else DigitsValue(body))
  }

  lemma StripOfNumber(s: string)
    requires |s| >= 1 && forall i :: 0 <= i < |s| ==> IsDigit(s[i]) || s[i] == '-'
    ensures Strip(s) == s
  {
    assert !IsSpace(s[0]) && !IsSpace(s[|s| - 1]);
  }

  /** `int(str(n)) == n`. */
  lemma ParseIntOfString(n: int)
    ensures ParseInt(IntToString(n)) == Some(n)
  {
    var s := IntToString(n);
    StripOfNumber(s);
    if n < 0 {
      assert s[1..] == NatToString(-n);
    }
  }
}
