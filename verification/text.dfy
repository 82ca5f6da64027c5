/**
  String helpers the scripts take from Python: `str.strip()`, `str.split(d)`,
  joining values with a delimiter, `str(int)`, `str.startswith`, and the
  scripts' own `isNotEmpty`.
*/
module Text {

  /** The characters Python 2's `str.strip()` removes: space, \t, \n, \r, \v, \f. */
  predicate IsWhitespace(c: char)
  {
    c == ' ' || c == '\t' || c == '\n' || c == '\r' || c == '\U{B}' || c == '\U{C}'
  }

  predicate AllWhitespace(s: string)
  {
    forall i | 0 <= i < |s| :: IsWhitespace(s[i])
  }

  function TrimLeft(s: string): (r: string)
  {
    if |s| > 0 && IsWhitespace(s[0]) then TrimLeft(s[1..]) else s
  }

  function TrimRight(s: string): (r: string)
  {
    if |s| > 0 && IsWhitespace(s[|s| - 1]) then TrimRight(s[..|s| - 1]) else s
  }

  /** `s.strip()` */
  function Strip(s: string): (r: string)
  {
    TrimRight(TrimLeft(s))
  }

  /** TrimLeft drops a whitespace prefix and stops at the first other character. */
  lemma {:induction false} TrimLeftSpec(s: string)
    ensures |TrimLeft(s)| <= |s|
    ensures TrimLeft(s) == s[|s| - |TrimLeft(s)|..]
    ensures AllWhitespace(s[..|s| - |TrimLeft(s)|])
    ensures TrimLeft(s) == "" || !IsWhitespace(TrimLeft(s)[0])
  {
    if |s| > 0 && IsWhitespace(s[0]) {
      var t := s[1..];
      TrimLeftSpec(t);
      var k := |t| - |TrimLeft(t)|;
      assert t[k..] == s[k + 1..];
      forall i | 0 <= i < k + 1
        ensures IsWhitespace(s[i])
      {
        if i > 0 {
          assert s[i] == t[..k][i - 1];
        }
      }
    }
  }

  /** TrimRight drops a whitespace suffix and stops at the last other character. */
  lemma {:induction false} TrimRightSpec(s: string)
    ensures |TrimRight(s)| <= |s|
    ensures TrimRight(s) == s[..|TrimRight(s)|]
    ensures AllWhitespace(s[|TrimRight(s)|..])
    ensures TrimRight(s) == "" || !IsWhitespace(TrimRight(s)[|TrimRight(s)| - 1])
  {
    if |s| > 0 && IsWhitespace(s[|s| - 1]) {
      var t := s[..|s| - 1];
      TrimRightSpec(t);
      var j := |TrimRight(t)|;
      assert t[..j] == s[..j];
      forall i | j <= i < |s|
        ensures IsWhitespace(s[i])
      {
        if i < |s| - 1 {
          assert s[i] == t[j..][i - j];
        }
      }
    }
  }

  /**
    `strip()` removes a whitespace prefix and a whitespace suffix and keeps
    the part between them, which neither starts nor ends with whitespace.
  */
  lemma StripSpec(s: string)
    ensures exists i, j | 0 <= i <= j <= |s| ::
      Strip(s) == s[i..j] && AllWhitespace(s[..i]) && AllWhitespace(s[j..])
    ensures Strip(s) == "" || (!IsWhitespace(Strip(s)[0]) && !IsWhitespace(Strip(s)[|Strip(s)| - 1]))
  {
    TrimLeftSpec(s);
    var t := TrimLeft(s);
    var i := |s| - |t|;
    TrimRightSpec(t);
    var j := |TrimRight(t)|;
    assert t[..j] == s[i..i + j];
    assert t[j..] == s[i + j..];
    assert Strip(s) == s[i..i + j];
  }

  /** `bool(s and s.strip())` */
  predicate IsNotEmpty(s: string)
  {
    |s| > 0 && Strip(s) != ""
  }

  /** isNotEmpty holds exactly when the string has a character that is not whitespace. */
  lemma IsNotEmptySpec(s: string)
    ensures IsNotEmpty(s) <==> exists i | 0 <= i < |s| :: !IsWhitespace(s[i])
  {
    StripSpec(s);
    var i, j :| 0 <= i <= j <= |s| && Strip(s) == s[i..j] && AllWhitespace(s[..i]) && AllWhitespace(s[j..]);
    if Strip(s) == "" {
      forall k | 0 <= k < |s|
        ensures IsWhitespace(s[k])
      {
        if k < i {
          assert s[k] == s[..i][k];
        } else {
          assert s[k] == s[j..][k - j];
        }
      }
    } else {
      assert s[i] == Strip(s)[0];
    }
  }

  /** `s.startswith(p)` */
  predicate StartsWith(s: string, p: string)
  {
    |p| <= |s| && s[..|p|] == p
  }

  /** A line that neither starts nor ends with whitespace is its own strip. */
  lemma StripTrimmed(s: string)
    requires |s| > 0 && !IsWhitespace(s[0]) && !IsWhitespace(s[|s| - 1])
    ensures Strip(s) == s
  {
  }

  /** A string starts with its own prefix, and what follows the prefix is the rest. */
  lemma PrefixOf(p: string, rest: string)
    ensures StartsWith(p + rest, p) && (p + rest)[|p|..] == rest
  {
    assert (p + rest)[..|p|] == p;
  }

  /** `s.split(d)`: the fields between the occurrences of d; "" splits into [""]. */
  function Split(s: string, d: char): (r: seq<string>)
    ensures |r| >= 1
  {
    if |s| == 0 then [""]
    else
      var rest := Split(s[1..], d);
      if s[0] == d then [""] + rest else [[s[0]] + rest[0]] + rest[1..]
  }

  /** The fields joined with d in between: the inverse of Split. */
  function Join(tokens: seq<string>, d: char): (r: string)
  {
    if |tokens| == 0 then ""
    else if |tokens| == 1 then tokens[0]
    else tokens[0] + [d] + Join(tokens[1..], d)
  }

  /** A string without the delimiter is a single field. */
  lemma {:induction false} SplitNoDelim(s: string, d: char)
    requires d !in s
    ensures Split(s, d) == [s]
  {
    if |s| > 0 {
      SplitNoDelim(s[1..], d);
      assert [s[0]] + s[1..] == s;
    }
  }

  /** Splitting at a delimiter splits the two sides independently. */
  lemma {:induction false} SplitConcat(a: string, b: string, d: char)
    ensures Split(a + [d] + b, d) == Split(a, d) + Split(b, d)
  {
    if |a| == 0 {
      assert a + [d] + b == [d] + b;
      assert ([d] + b)[1..] == b;
    } else {
      var s := a + [d] + b;
      assert s[0] == a[0];
      assert s[1..] == a[1..] + [d] + b;
      SplitConcat(a[1..], b, d);
    }
  }

  /** Join of one more field. */
  lemma {:induction false} JoinSnoc(tokens: seq<string>, t: string, d: char)
    requires |tokens| >= 1
    ensures Join(tokens + [t], d) == Join(tokens, d) + [d] + t
  {
    if |tokens| == 1 {
      assert tokens + [t] == [tokens[0], t];
    } else {
      assert (tokens + [t])[1..] == tokens[1..] + [t];
      JoinSnoc(tokens[1..], t, d);
    }
  }

  /** Splitting joined fields that do not contain the delimiter gives the fields back. */
  lemma {:induction false} SplitJoin(tokens: seq<string>, d: char)
    requires |tokens| >= 1
    requires forall i | 0 <= i < |tokens| :: d !in tokens[i]
    ensures Split(Join(tokens, d), d) == tokens
  {
    if |tokens| == 1 {
      SplitNoDelim(tokens[0], d);
    } else {
      SplitJoin(tokens[1..], d);
      SplitConcat(tokens[0], Join(tokens[1..], d), d);
      SplitNoDelim(tokens[0], d);
      assert [tokens[0]] + tokens[1..] == tokens;
    }
  }

  function CountChar(s: string, c: char): (n: nat)
  {
    if |s| == 0 then 0 else (if s[0] == c then 1 else 0) + CountChar(s[1..], c)
  }

  lemma {:induction false} CountCharConcat(a: string, b: string, c: char)
    ensures CountChar(a + b, c) == CountChar(a, c) + CountChar(b, c)
  {
    if |a| == 0 {
      assert a + b == b;
    } else {
      assert (a + b)[0] == a[0];
      assert (a + b)[1..] == a[1..] + b;
      CountCharConcat(a[1..], b, c);
    }
  }

  lemma {:induction false} CountCharAbsent(s: string, c: char)
    requires c !in s
    ensures CountChar(s, c) == 0
  {
    if |s| > 0 {
      CountCharAbsent(s[1..], c);
    }
  }

  /** n fields without the delimiter are joined with exactly n - 1 delimiters. */
  lemma {:induction false} JoinDelimiterCount(tokens: seq<string>, d: char)
    requires |tokens| >= 1
    requires forall i | 0 <= i < |tokens| :: d !in tokens[i]
    ensures CountChar(Join(tokens, d), d) == |tokens| - 1
  {
    CountCharAbsent(tokens[0], d);
    if |tokens| > 1 {
      JoinDelimiterCount(tokens[1..], d);
      CountCharConcat(tokens[0] + [d], Join(tokens[1..], d), d);
      CountCharConcat(tokens[0], [d], d);
    }
  }

  // ---------------------------------------------------------------------
  // str(int) and its inverse

  predicate IsDigit(c: char)
  {
    '0' <= c <= '9'
  }

  function DigitChar(v: int): (c: char)
    requires 0 <= v < 10
    ensures IsDigit(c)
  {
    "0123456789"[v]
  }

  function DigitValue(c: char): (v: int)
  {
    c as int - '0' as int
  }

  /** `str(n)` for n >= 0: decimal digits, most significant first. */
  function NatToString(n: nat): (s: string)
    ensures |s| >= 1 && forall i | 0 <= i < |s| :: IsDigit(s[i])
    decreases n
  {
    if n < 10 then [DigitChar(n)] else NatToString(n / 10) + [DigitChar(n % 10)]
  }

  /** `str(v)` for any int: a '-' sign before the digits of a negative value. */
  function IntToString(v: int): (s: string)
    ensures |s| >= 1
    ensures forall i | 0 <= i < |s| :: IsDigit(s[i]) || (i == 0 && s[i] == '-')
    ensures s[0] == '-' <==> v < 0
  {
    if v < 0 then "-" + NatToString(-v) else NatToString(v)
  }

  function ParseNat(s: string): (n: int)
  {
    if |s| == 0 then 0 else ParseNat(s[..|s| - 1]) * 10 + DigitValue(s[|s| - 1])
  }

  /** Reading back a decimal integer, as the CSV reader does. */
  function ParseInt(s: string): (v: int)
  {
    if |s| > 0 && s[0] == '-' then -ParseNat(s[1..]) else ParseNat(s)
  }

  lemma {:induction false} ParseNatToString(n: nat)
    ensures ParseNat(NatToString(n)) == n
    decreases n
  {
    var s := NatToString(n);
    if n < 10 {
      assert s[..0] == "";
      assert DigitValue("0123456789"[n]) == n;
    } else {
      ParseNatToString(n / 10);
      assert s[..|s| - 1] == NatToString(n / 10);
      assert DigitValue("0123456789"[n % 10]) == n % 10;
    }
  }

  /** Reading back the decimal text of an int gives the int. */
  lemma ParseIntToString(v: int)
    ensures ParseInt(IntToString(v)) == v
  {
    if v < 0 {
      ParseNatToString(-v);
      assert ("-" + NatToString(-v))[1..] == NatToString(-v);
    } else {
      ParseNatToString(v);
    }
  }
}
