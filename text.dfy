/**
 * Decimal rendering of integers and joining of strings with a separator, as
 * the matrix formatting uses them, together with their inverses (parsing a
 * numeral, splitting at a separator character) and the round trips that tie
 * each pair together.
 */
module Text {
  import opened Results

  predicate IsDigit(c: char)
  {
    '0' <= c <= '9'
  }

  /** A non-empty run of decimal digits. */
  predicate IsNumeral(s: string)
  {
    |s| >= 1 && forall k :: 0 <= k < |s| ==> IsDigit(s[k])
  }

  function DigitChar(d: nat): (c: char)
    requires d < 10
    ensures IsDigit(c)
  {
    (d + '0' as int) as char
  }

  function DigitValue(c: char): (d: nat)
    requires IsDigit(c)
    ensures d < 10 && DigitChar(d) == c
  {
    c as int - '0' as int
  }

  /** The decimal numeral of `n`, most significant digit first, without leading zeros. */
  function NatToString(n: nat): (s: string)
    ensures IsNumeral(s)
    ensures s[0] == '0' ==> n == 0
  {
    if n < 10 then [DigitChar(n)] else NatToString(n / 10) + [DigitChar(n % 10)]
  }

  /** The decimal rendering of an integer: a minus sign in front of negative values. */
  function IntToString(x: int): (s: string)
    ensures |s| >= 1
    ensures forall k :: 0 <= k < |s| ==> s[k] != ' ' && s[k] != ','
  {
    if x < 0 then "-" + NatToString(-x) else NatToString(x)
  }

  /** The value of a run of decimal digits, read most significant digit first. */
  function NumeralValue(s: string): nat
    requires forall k :: 0 <= k < |s| ==> IsDigit(s[k])
  {
    if |s| == 0 then 0 else NumeralValue(s[..|s| - 1]) * 10 + DigitValue(s[|s| - 1])
  }

  /** Reads an optionally negative decimal integer; anything else is rejected. */
  function ParseInt(s: string): Option<int>
  {
    if |s| > 0 && s[0] == '-' then
      if IsNumeral(s[1..]) then Some(0 - NumeralValue(s[1..])) else None
    else if IsNumeral(s) then Some(NumeralValue(s))
    else None
  }

  lemma {:induction false} NatToStringRoundTrip(n: nat)
    ensures NumeralValue(NatToString(n)) == n
  {
    if n >= 10 {
      var s := NatToString(n);
      assert s[..|s| - 1] == NatToString(n / 10);
      NatToStringRoundTrip(n / 10);
    }
  }

  /** Parsing the rendering of any integer gives that integer back. */
  lemma IntToStringRoundTrip(x: int)
    ensures ParseInt(IntToString(x)) == Some(x)
  {
    if x < 0 {
      var s := IntToString(x);
      assert s[1..] == NatToString(-x);
      NatToStringRoundTrip(-x);
    } else {
      NatToStringRoundTrip(x);
    }
  }

  /** The parts, in order, with `sep` between neighbours and nothing before or after. */
  function Join(sep: string, parts: seq<string>): string
  {
    if |parts| == 0 then ""
    else if |parts| == 1 then parts[0]
    else Join(sep, parts[..|parts| - 1]) + sep + parts[|parts| - 1]
  }

  /** Two parts joined. */
  lemma JoinTwo(sep: string, x: string, y: string)
    ensures Join(sep, [x, y]) == x + sep + y
  {
    assert [x, y][..1] == [x];
  }

  /** Three parts joined. */
  lemma JoinThree(sep: string, x: string, y: string, z: string)
    ensures Join(sep, [x, y, z]) == x + sep + y + sep + z
  {
    assert [x, y, z][..2] == [x, y];
    JoinTwo(sep, x, y);
  }

  /** Extending the joined prefix by one more part adds the separator only between parts. */
  lemma JoinSnoc(sep: string, parts: seq<string>, n: nat)
    requires n < |parts|
    ensures Join(sep, parts[..n + 1]) == Join(sep, parts[..n]) + (if n == 0 then "" else sep) + parts[n]
  {
    assert parts[..n + 1][..n] == parts[..n];
  }

  /**
   * What a writer has emitted after the first n parts when it writes every
   * part followed by `sep`, except the very last part of all.
   */
  function WrittenSoFar(sep: string, parts: seq<string>, n: nat): string
    requires n <= |parts|
  {
    if n == 0 then ""
    else WrittenSoFar(sep, parts, n - 1) + parts[n - 1] + (if n < |parts| then sep else "")
  }

  /** Writing part n, and the separator unless it is the last part, extends what was emitted. */
  lemma WrittenSoFarStep(sep: string, parts: seq<string>, n: nat, prefix: string)
    requires n < |parts|
    ensures n + 1 < |parts| ==> prefix + WrittenSoFar(sep, parts, n) + parts[n] + sep == prefix + WrittenSoFar(sep, parts, n + 1)
    ensures n + 1 == |parts| ==> prefix + WrittenSoFar(sep, parts, n) + parts[n] == prefix + WrittenSoFar(sep, parts, n + 1)
  {
  }

  /** Part by part, the writer emits the joined text, plus a separator while parts remain. */
  lemma {:induction false} WrittenSoFarIsJoin(sep: string, parts: seq<string>, n: nat)
    requires n <= |parts|
    ensures WrittenSoFar(sep, parts, n) == Join(sep, parts[..n]) + (if 0 < n < |parts| then sep else "")
  {
    if n > 0 {
      WrittenSoFarIsJoin(sep, parts, n - 1);
      JoinSnoc(sep, parts, n - 1);
    }
  }

  /** Once every part is written, the writer has emitted exactly the joined text. */
  lemma WrittenAllIsJoin(sep: string, parts: seq<string>)
    ensures WrittenSoFar(sep, parts, |parts|) == Join(sep, parts)
  {
    WrittenSoFarIsJoin(sep, parts, |parts|);
    assert parts[..|parts|] == parts;
  }

  /** The pieces of `s` between occurrences of `c`; always at least one piece. */
  function Split(s: string, c: char): (pieces: seq<string>)
    ensures |pieces| >= 1
  {
    if |s| == 0 then [""]
    else
      var rest := Split(s[..|s| - 1], c);
      if s[|s| - 1] == c then rest + [""]
      else rest[..|rest| - 1] + [rest[|rest| - 1] + [s[|s| - 1]]]
  }

  /** Text free of `c` glues onto the last piece. */
  lemma {:induction false} SplitAppendPlain(t: string, w: string, c: char)
    requires forall k :: 0 <= k < |w| ==> w[k] != c
    ensures var p := Split(t, c);
      Split(t + w, c) == p[..|p| - 1] + [p[|p| - 1] + w]
  {
    var p := Split(t, c);
    if |w| == 0 {
      assert t + w == t;
      assert p[|p| - 1] + w == p[|p| - 1];
      assert p[..|p| - 1] + [p[|p| - 1]] == p;
    } else {
      var w' := w[..|w| - 1];
      SplitAppendPlain(t, w', c);
      assert (t + w)[..|t + w| - 1] == t + w';
      assert p[|p| - 1] + w' + [w[|w| - 1]] == p[|p| - 1] + w;
    }
  }

  /** A separator followed by `c`-free text opens exactly one new piece. */
  lemma SplitAppendPiece(t: string, w: string, c: char)
    requires forall k :: 0 <= k < |w| ==> w[k] != c
    ensures Split(t + [c] + w, c) == Split(t, c) + [w]
  {
    assert (t + [c])[..|t + [c]| - 1] == t;
    var q := Split(t + [c], c);
    assert q == Split(t, c) + [""];
    SplitAppendPlain(t + [c], w, c);
    assert q[..|q| - 1] == Split(t, c);
    assert q[|q| - 1] + w == w;
  }

  /**
   * Splitting what was joined with `c` followed by `pad` at `c` gives the
   * parts back, each after the first still carrying `pad` in front.
   */
  lemma {:induction false} SplitJoin(parts: seq<string>, c: char, pad: string)
    requires |parts| >= 1
    requires forall k :: 0 <= k < |pad| ==> pad[k] != c
    requires forall i, k :: 0 <= i < |parts| && 0 <= k < |parts[i]| ==> parts[i][k] != c
    ensures |Split(Join([c] + pad, parts), c)| == |parts|
    ensures Split(Join([c] + pad, parts), c)[0] == parts[0]
    ensures forall i :: 1 <= i < |parts| ==> Split(Join([c] + pad, parts), c)[i] == pad + parts[i]
  {
    var sep := [c] + pad;
    if |parts| == 1 {
      SplitAppendPlain("", parts[0], c);
      assert "" + parts[0] == parts[0];
    } else {
      var n := |parts| - 1;
      var init := parts[..n];
      var w := pad + parts[n];
      var left := Join(sep, init);
      var earlier := Split(left, c);
      assert |earlier| == n && earlier[0] == parts[0] by {
        SplitJoin(init, c, pad);
      }
      assert forall i :: 1 <= i < n ==> earlier[i] == pad + parts[i] by {
        SplitJoin(init, c, pad);
      }
      var pieces := Split(Join(sep, parts), c);
      assert pieces == earlier + [w] by {
        PaddedAvoids(pad, parts[n], c);
        JoinLastWithPad(c, pad, parts);
        SplitAppendPiece(left, w, c);
      }
    }
  }

  /** A part free of `c` behind a pad free of `c` is free of `c`. */
  lemma PaddedAvoids(pad: string, part: string, c: char)
    requires forall k :: 0 <= k < |pad| ==> pad[k] != c
    requires forall k :: 0 <= k < |part| ==> part[k] != c
    ensures forall k :: 0 <= k < |pad + part| ==> (pad + part)[k] != c
  {
  }

  /** The last part joins on behind the separator `c` and the pad. */
  lemma JoinLastWithPad(c: char, pad: string, parts: seq<string>)
    requires |parts| >= 2
    ensures Join([c] + pad, parts) == Join([c] + pad, parts[..|parts| - 1]) + [c] + (pad + parts[|parts| - 1])
  {
  }

  /** A character absent from the separator and from every part is absent from the joined text. */
  lemma {:induction false} JoinAvoids(sep: string, parts: seq<string>, c: char)
    requires forall k :: 0 <= k < |sep| ==> sep[k] != c
    requires forall i, k :: 0 <= i < |parts| && 0 <= k < |parts[i]| ==> parts[i][k] != c
    ensures forall k :: 0 <= k < |Join(sep, parts)| ==> Join(sep, parts)[k] != c
  {
    if |parts| > 1 {
      var n := |parts| - 1;
      JoinAvoids(sep, parts[..n], c);
      var left := Join(sep, parts[..n]);
      assert Join(sep, parts) == left + sep + parts[n];
      forall k | 0 <= k < |Join(sep, parts)|
        ensures Join(sep, parts)[k] != c
      {
        if k < |left| {
          assert Join(sep, parts)[k] == left[k];
        } else if k < |left| + |sep| {
          assert Join(sep, parts)[k] == sep[k - |left|];
        } else {
          assert Join(sep, parts)[k] == parts[n][k - |left| - |sep|];
        }
      }
    }
  }

  /**
   * The joined text is at least as long as its last part, and holds a
   * separator as well when there are two parts or more.
   */
  lemma JoinCoversLast(sep: string, parts: seq<string>)
    requires |parts| >= 1
    ensures |Join(sep, parts)| >= |parts[|parts| - 1]| + (if |parts| >= 2 then |sep| else 0)
  {
  }

  /** The number of decimal digits at the front of `s`. */
  function LeadingDigits(s: string): (n: nat)
    ensures n <= |s|
    ensures forall k :: 0 <= k < n ==> IsDigit(s[k])
  {
    if |s| == 0 || !IsDigit(s[0]) then 0 else 1 + LeadingDigits(s[1..])
  }

  /** A numeral followed by something that is not a digit is read up to its end. */
  lemma {:induction false} LeadingDigitsOfNumeral(d: string, rest: string)
    requires forall k :: 0 <= k < |d| ==> IsDigit(d[k])
    requires |rest| == 0 || !IsDigit(rest[0])
    ensures LeadingDigits(d + rest) == |d|
  {
    if |d| > 0 {
      assert (d + rest)[1..] == d[1..] + rest;
      LeadingDigitsOfNumeral(d[1..], rest);
    } else {
      assert d + rest == rest;
    }
  }
}
