/**
 * The JavaScript string built-ins the toolkit relies on, as functions on
 * `seq<char>`: `split` on a one-character separator, `Array.prototype.join`,
 * `trim`, the relational operator `<` on strings, and `String(n)` for a
 * non-negative integer.
 */
module Strings {

  /** Number of occurrences of `c` in `s`. */
  function Count(s: string, c: char): nat
  {
    if |s| == 0 then 0
    else (if s[0] == c then 1 else 0) + Count(s[1..], c)
  }

  /**
   * `s.split(d)`: the maximal `d`-free pieces of `s`, in order. There is one
   * piece more than there are separators, so "" gives [""] and a trailing
   * separator gives a trailing "".
   */
  function Split(s: string, d: char): (parts: seq<string>)
    ensures |parts| == Count(s, d) + 1
    ensures forall i :: 0 <= i < |parts| ==> d !in parts[i]
    ensures forall i, c :: 0 <= i < |parts| && c in parts[i] ==> c in s
    decreases |s|
  {
    if |s| == 0 then [""]
    else
      var rest := Split(s[1..], d);
      assert forall c :: c in s[1..] ==> c in s;
      if s[0] == d then [""] + rest
      else [[s[0]] + rest[0]] + rest[1..]
  }

  /** `parts.join(sep)`: the parts in order with `sep` between neighbours. */
  function Join(parts: seq<string>, sep: string): string
  {
    if |parts| == 0 then ""
    else if |parts| == 1 then parts[0]
    else parts[0] + sep + Join(parts[1..], sep)
  }

  /** Three parts joined: each separator between two neighbours. */
  lemma JoinThree(a: string, b: string, c: string, sep: string)
    ensures Join([a, b, c], sep) == a + sep + b + sep + c
  {
    calc {
      Join([a, b, c], sep);
    == { assert [a, b, c][1..] == [b, c]; }
      a + sep + Join([b, c], sep);
    == { assert [b, c][1..] == [c]; }
      a + sep + (b + sep + c);
    }
  }

  /** Joining the pieces of a split with the separator gives back the text. */
  lemma {:induction false} JoinSplit(s: string, d: char)
    ensures Join(Split(s, d), [d]) == s
    decreases |s|
  {
    if |s| > 0 {
      var rest := Split(s[1..], d);
      JoinSplit(s[1..], d);
      if s[0] == d {
        assert Split(s, d) == [""] + rest;
        assert ([""] + rest)[1..] == rest;
        assert s == [d] + s[1..];
      } else {
        var first := [s[0]] + rest[0];
        assert Split(s, d) == [first] + rest[1..];
        assert ([first] + rest[1..])[1..] == rest[1..];
        if |rest| == 1 {
          assert Join(rest, [d]) == rest[0];
        } else {
          assert Join(rest, [d]) == rest[0] + [d] + Join(rest[1..], [d]);
        }
        assert s == [s[0]] + s[1..];
      }
    }
  }

  /** A text without the separator is a single piece. */
  lemma {:induction false} SplitWithoutSeparator(s: string, d: char)
    requires d !in s
    ensures Split(s, d) == [s]
    decreases |s|
  {
    if |s| > 0 {
      assert d !in s[1..] by {
        forall i | 0 <= i < |s[1..]| ensures s[1..][i] != d { assert s[1..][i] == s[i + 1]; }
      }
      SplitWithoutSeparator(s[1..], d);
      assert s == [s[0]] + s[1..];
    }
  }

  /** A separator-free piece followed by a separator splits off as one piece. */
  lemma {:induction false} SplitAfterPiece(p: string, d: char, t: string)
    requires d !in p
    ensures Split(p + [d] + t, d) == [p] + Split(t, d)
    decreases |p|
  {
    if |p| == 0 {
      assert p + [d] + t == [d] + t;
      assert ([d] + t)[1..] == t;
    } else {
      var s := p + [d] + t;
      assert s[1..] == p[1..] + [d] + t;
      assert d !in p[1..] by {
        forall i | 0 <= i < |p[1..]| ensures p[1..][i] != d { assert p[1..][i] == p[i + 1]; }
      }
      SplitAfterPiece(p[1..], d, t);
      assert p == [p[0]] + p[1..];
    }
  }

  /** A one-character text other than the separator is one piece. */
  lemma SplitSingle(c: char, d: char)
    requires c != d
    ensures Split([c], d) == [[c]]
  {
    var e := Split([c][1..], d);
    assert [c][1..] == [];
    assert e == [""];
    assert [c] + e[0] == [c] && e[1..] == [];
  }

  /** Appending a character other than the separator extends the last piece. */
  lemma {:induction false} SplitAppendChar(s: string, d: char, c: char)
    requires c != d
    ensures Split(s + [c], d)
         == Split(s, d)[..|Split(s, d)| - 1] + [Split(s, d)[|Split(s, d)| - 1] + [c]]
    decreases |s|
  {
    if |s| == 0 {
      assert s + [c] == [c];
      SplitSingle(c, d);
      assert [""][..0] + [[] + [c]] == [[c]];
    } else {
      var rest := Split(s[1..], d);
      var r := Split(s[1..] + [c], d);
      assert (s + [c])[0] == s[0];
      assert (s + [c])[1..] == s[1..] + [c];
      SplitAppendChar(s[1..], d, c);
      if s[0] == d {
        assert Split(s + [c], d) == [""] + r;
        assert Split(s, d) == [""] + rest;
        ExtendedLast([""], rest, r, c);
      } else {
        assert Split(s + [c], d) == [[s[0]] + r[0]] + r[1..];
        assert Split(s, d) == [[s[0]] + rest[0]] + rest[1..];
        ExtendedFirst(s[0], rest, r, c);
      }
    }
  }

  /** Extending the last piece of `rest` extends the last piece of `front + rest`. */
  lemma ExtendedLast(front: seq<string>, rest: seq<string>, r: seq<string>, c: char)
    requires |rest| > 0 && r == rest[..|rest| - 1] + [rest[|rest| - 1] + [c]]
    ensures front + r == (front + rest)[..|front + rest| - 1] + [(front + rest)[|front + rest| - 1] + [c]]
  {
    assert (front + rest)[..|front + rest| - 1] == front + rest[..|rest| - 1];
  }

  /** Extending the last piece of `rest` extends the last piece once `x` is glued to the first. */
  lemma ExtendedFirst(x: char, rest: seq<string>, r: seq<string>, c: char)
    requires |rest| > 0 && r == rest[..|rest| - 1] + [rest[|rest| - 1] + [c]]
    ensures var q := [[x] + rest[0]] + rest[1..];
      [[x] + r[0]] + r[1..] == q[..|q| - 1] + [q[|q| - 1] + [c]]
  {
    var n := |rest| - 1;
    var q := [[x] + rest[0]] + rest[1..];
    if n == 0 {
      assert [x] + (rest[0] + [c]) == [x] + rest[0] + [c];
    } else {
      assert r[0] == rest[0];
      assert r[1..] == rest[1..n] + [rest[n] + [c]];
      assert q[..n] == [[x] + rest[0]] + rest[1..n];
    }
  }

  /**
   * Splitting a join gives back the parts, provided there is at least one
   * part and no part contains the separator.
   */
  lemma {:induction false} SplitJoin(parts: seq<string>, d: char)
    requires |parts| > 0
    requires forall i :: 0 <= i < |parts| ==> d !in parts[i]
    ensures Split(Join(parts, [d]), d) == parts
    decreases |parts|
  {
    if |parts| == 1 {
      SplitWithoutSeparator(parts[0], d);
    } else {
      SplitJoin(parts[1..], d);
      SplitAfterPiece(parts[0], d, Join(parts[1..], [d]));
      assert parts == [parts[0]] + parts[1..];
    }
  }

  /** A join contains no character that is in neither the parts nor the separator. */
  lemma {:induction false} JoinAvoids(parts: seq<string>, sep: string, c: char)
    requires c !in sep
    requires forall i :: 0 <= i < |parts| ==> c !in parts[i]
    ensures c !in Join(parts, sep)
    decreases |parts|
  {
    if |parts| > 1 {
      JoinAvoids(parts[1..], sep, c);
    }
  }

  // ----- trim -----

  /** JavaScript `WhiteSpace` and `LineTerminator` code points: what `trim` removes. */
  predicate IsJsWhitespace(c: char)
  {
    || c == '\t' || c == '\n' || c == '\U{000B}' || c == '\U{000C}' || c == '\r'
    || c == ' ' || c == '\U{00A0}' || c == '\U{1680}'
    || ('\U{2000}' <= c <= '\U{200A}')
    || c == '\U{2028}' || c == '\U{2029}' || c == '\U{202F}' || c == '\U{205F}'
    || c == '\U{3000}' || c == '\U{FEFF}'
  }

  predicate AllWhitespace(s: string)
  {
    forall i :: 0 <= i < |s| ==> IsJsWhitespace(s[i])
  }

  /** `trimStart`: the suffix left after dropping the leading whitespace. */
  function TrimStart(s: string): (r: string)
    ensures |r| <= |s| && r == s[|s| - |r|..]
    ensures AllWhitespace(s[..|s| - |r|])
    ensures |r| == 0 || !IsJsWhitespace(r[0])
    decreases |s|
  {
    if |s| > 0 && IsJsWhitespace(s[0]) then TrimStart(s[1..]) else s
  }

  /** `trimEnd`: the prefix left after dropping the trailing whitespace. */
  function TrimEnd(s: string): (r: string)
    ensures |r| <= |s| && r == s[..|r|]
    ensures AllWhitespace(s[|r|..])
    ensures |r| == 0 || !IsJsWhitespace(r[|r| - 1])
    decreases |s|
  {
    if |s| > 0 && IsJsWhitespace(s[|s| - 1]) then
      var t := s[..|s| - 1];
      var r := TrimEnd(t);
      assert s[..|r|] == t[..|r|] && s[|r|..] == t[|r|..] + [s[|s| - 1]];
      r
    else s
  }

  /** `trim`: neither end of the result is whitespace. */
  function Trim(s: string): (r: string)
    ensures |r| == 0 || (!IsJsWhitespace(r[0]) && !IsJsWhitespace(r[|r| - 1]))
  {
    var t := TrimStart(s);
    var r := TrimEnd(t);
    assert |r| > 0 ==> r[0] == t[0];
    r
  }

  lemma {:induction false} TrimStartAfterWhitespace(w: string, t: string)
    requires AllWhitespace(w)
    ensures TrimStart(w + t) == TrimStart(t)
    decreases |w|
  {
    if |w| > 0 {
      assert (w + t)[1..] == w[1..] + t;
      TrimStartAfterWhitespace(w[1..], t);
    } else {
      assert w + t == t;
    }
  }

  lemma {:induction false} TrimStartKeepsTail(s: string, t: string)
    requires !AllWhitespace(s)
    ensures TrimStart(s + t) == TrimStart(s) + t
    decreases |s|
  {
    assert |s| > 0;
    if IsJsWhitespace(s[0]) {
      assert !AllWhitespace(s[1..]) by {
        var i :| 0 <= i < |s| && !IsJsWhitespace(s[i]);
        assert s[1..][i - 1] == s[i];
      }
      assert (s + t)[1..] == s[1..] + t;
      TrimStartKeepsTail(s[1..], t);
    }
  }

  lemma {:induction false} TrimEndBeforeWhitespace(t: string, w: string)
    requires AllWhitespace(w)
    ensures TrimEnd(t + w) == TrimEnd(t)
    decreases |w|
  {
    if |w| > 0 {
      assert (t + w)[..|t + w| - 1] == t + w[..|w| - 1];
      TrimEndBeforeWhitespace(t, w[..|w| - 1]);
    } else {
      assert t + w == t;
    }
  }

  /** Whitespace around a text, blank lines included, does not change its trim. */
  lemma TrimIgnoresPadding(w1: string, s: string, w2: string)
    requires AllWhitespace(w1) && AllWhitespace(w2)
    ensures Trim(w1 + s + w2) == Trim(s)
  {
    assert w1 + s + w2 == w1 + (s + w2);
    TrimStartAfterWhitespace(w1, s + w2);
    if AllWhitespace(s) {
      assert AllWhitespace(s + w2) by {
        forall i | 0 <= i < |s + w2| ensures IsJsWhitespace((s + w2)[i]) {
          if i < |s| { assert (s + w2)[i] == s[i]; } else { assert (s + w2)[i] == w2[i - |s|]; }
        }
      }
      TrimStartAfterWhitespace(s + w2, "");
      TrimStartAfterWhitespace(s, "");
      assert s + w2 + "" == s + w2 && s + "" == s;
    } else {
      TrimStartKeepsTail(s, w2);
      TrimEndBeforeWhitespace(TrimStart(s), w2);
    }
  }

  // ----- infixes -----

  /** `t` occurs in `s` starting at index `i`. */
  predicate OccursAt(t: string, s: string, i: int)
  {
    0 <= i && i + |t| <= |s| && s[i..i + |t|] == t
  }

  /** `s.includes(t)`. */
  ghost predicate IsInfix(t: string, s: string)
  {
    exists i :: OccursAt(t, s, i)
  }

  lemma InfixOfConcat(t: string, a: string, b: string, c: string)
    requires IsInfix(t, b)
    ensures IsInfix(t, a + b + c)
  {
    var i :| OccursAt(t, b, i);
    var j := |a| + i;
    assert (a + b + c)[j..j + |t|] == b[i..i + |t|];
    assert OccursAt(t, a + b + c, j);
  }

  lemma InfixTransitive(t: string, u: string, s: string)
    requires IsInfix(t, u) && IsInfix(u, s)
    ensures IsInfix(t, s)
  {
    var i :| OccursAt(t, u, i);
    var j :| OccursAt(u, s, j);
    forall k | 0 <= k < |t| ensures s[j + i..j + i + |t|][k] == t[k] {
      assert s[j + i + k] == s[j..j + |u|][i + k] == u[i + k] == u[i..i + |t|][k];
    }
    assert OccursAt(t, s, j + i);
  }

  lemma InfixSelf(t: string)
    ensures IsInfix(t, t)
  {
    assert t[0..|t|] == t;
    assert OccursAt(t, t, 0);
  }

  /** Every part is an infix of a join. */
  lemma {:induction false} JoinContainsPart(parts: seq<string>, sep: string, k: nat)
    requires k < |parts|
    ensures IsInfix(parts[k], Join(parts, sep))
    decreases |parts|
  {
    InfixSelf(parts[k]);
    if |parts| > 1 {
      if k == 0 {
        InfixOfConcat(parts[0], "", parts[0], sep + Join(parts[1..], sep));
        assert "" + parts[0] + (sep + Join(parts[1..], sep)) == Join(parts, sep);
      } else {
        JoinContainsPart(parts[1..], sep, k - 1);
        InfixOfConcat(parts[k], parts[0] + sep, Join(parts[1..], sep), "");
        assert parts[0] + sep + Join(parts[1..], sep) + "" == Join(parts, sep);
      }
    }
  }

  // ----- comparison -----

  /**
   * The relational `a < b` on two strings: lexicographic order on the
   * characters, a proper prefix coming first.
   */
  predicate StrLess(a: string, b: string)
    decreases |a|
  {
    if |a| == 0 then |b| > 0
    else if |b| == 0 then false
    else if a[0] != b[0] then a[0] < b[0]
    else StrLess(a[1..], b[1..])
  }

  lemma {:induction false} StrLessIrreflexive(a: string)
    ensures !StrLess(a, a)
    decreases |a|
  {
    if |a| > 0 { StrLessIrreflexive(a[1..]); }
  }

  lemma {:induction false} StrLessTransitive(a: string, b: string, c: string)
    requires StrLess(a, b) && StrLess(b, c)
    ensures StrLess(a, c)
    decreases |a|
  {
    if |a| > 0 && a[0] == b[0] && b[0] == c[0] {
      StrLessTransitive(a[1..], b[1..], c[1..]);
    }
  }

  /** Two different strings are ordered one way or the other. */
  lemma {:induction false} StrLessTotal(a: string, b: string)
    requires a != b
    ensures StrLess(a, b) || StrLess(b, a)
    decreases |a|
  {
    if |a| > 0 && |b| > 0 && a[0] == b[0] {
      assert a == [a[0]] + a[1..] && b == [b[0]] + b[1..];
      StrLessTotal(a[1..], b[1..]);
    }
  }

  lemma StrLessAsymmetric(a: string, b: string)
    requires StrLess(a, b)
    ensures !StrLess(b, a)
  {
    if StrLess(b, a) {
      StrLessTransitive(a, b, a);
      StrLessIrreflexive(a);
    }
  }

  // ----- numbers as text -----

  function DigitChar(d: nat): char
    requires d < 10
  {
    "0123456789"[d]
  }

  predicate IsDigit(c: char)
  {
    '0' <= c <= '9'
  }

  /** The value of a decimal digit character. */
  function DigitValue(c: char): (d: nat)
    requires IsDigit(c)
    ensures d < 10
  {
    c as int - '0' as int
  }

  lemma DigitRoundTrip(d: nat)
    requires d < 10
    ensures IsDigit(DigitChar(d)) && DigitValue(DigitChar(d)) == d
  {
    assert "0123456789"[d] == ('0' as int + d) as char;
  }

  /** `String(n)` for a non-negative integer: its decimal digits, no leading zero. */
  function NatToString(n: nat): (r: string)
    ensures |r| > 0 && (|r| > 1 ==> r[0] != '0')
    ensures forall i :: 0 <= i < |r| ==> IsDigit(r[i])
  {
    DigitRoundTrip(n % 10);
    if n < 10 then [DigitChar(n)] else NatToString(n / 10) + [DigitChar(n % 10)]
  }

  /** The number a string of decimal digits denotes. */
  function DecimalValue(s: string): nat
    requires forall i :: 0 <= i < |s| ==> IsDigit(s[i])
    decreases |s|
  {
    if |s| == 0 then 0 else DecimalValue(s[..|s| - 1]) * 10 + DigitValue(s[|s| - 1])
  }

  /** Reading back the decimal text of `n` gives `n`. */
  lemma {:induction false} DecimalOfNatToString(n: nat)
    ensures DecimalValue(NatToString(n)) == n
  {
    DigitRoundTrip(n % 10);
    if n >= 10 {
      var r := NatToString(n);
      assert r[..|r| - 1] == NatToString(n / 10);
      DecimalOfNatToString(n / 10);
    }
  }

  /** Different numbers have different decimal texts. */
  lemma NatToStringInjective(a: nat, b: nat)
    requires NatToString(a) == NatToString(b)
    ensures a == b
  {
    DecimalOfNatToString(a);
    DecimalOfNatToString(b);
  }
}
