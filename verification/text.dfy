/** The few Python string operations the diagram generator relies on,
    stated over `string` (a sequence of Unicode scalar values):
    `str.split` with a one-character separator, `sep.join`, `str.count`,
    `str.center`, left/right alignment as done by `format`, `str(n)` for a
    natural number, `str.lower` for the comparisons made against ASCII
    keywords, and `int(s)` for base-10 text. */
module Text {
  import opened Results

  // ---------------------------------------------------------------------
  // Counting, splitting and joining
  // ---------------------------------------------------------------------

  /** `s.count(c)` for a single character `c`. */
  function Count(s: string, c: char): nat
  {
    if |s| == 0 then 0 else (if s[0] == c then 1 else 0) + Count(s[1..], c)
  }

  lemma {:induction false} CountZero(s: string, c: char)
    ensures Count(s, c) == 0 <==> c !in s
  {
    if |s| > 0 {
      CountZero(s[1..], c);
      assert c in s <==> s[0] == c || c in s[1..] by {
        assert s == [s[0]] + s[1..];
      }
    }
  }

  /** `sep.join(parts)` for a one-character separator. */
  function Join(parts: seq<string>, sep: char): string
  {
    if |parts| == 0 then ""
    else if |parts| == 1 then parts[0]
    else parts[0] + [sep] + Join(parts[1..], sep)
  }

  /** `s.split(sep)` for a one-character separator: never empty, one more
      piece than there are separators, no piece holds the separator, and
      joining the pieces back gives `s`. */
  function Split(s: string, sep: char): (parts: seq<string>)
    ensures |parts| == Count(s, sep) + 1
    ensures forall i :: 0 <= i < |parts| ==> sep !in parts[i]
    ensures Join(parts, sep) == s
  {
    if |s| == 0 then [""]
    else
      var rest := Split(s[1..], sep);
      if s[0] == sep then
        assert s == [sep] + s[1..];
        [""] + rest
      else
        var parts := [[s[0]] + rest[0]] + rest[1..];
        assert Join(parts, sep) == s by {
          if |rest| > 1 {
            assert Join(rest, sep) == rest[0] + [sep] + Join(rest[1..], sep);
            assert parts[1..] == rest[1..];
          }
          assert s == [s[0]] + s[1..];
        }
        parts
  }

  lemma {:induction false} SplitNoSeparator(s: string, sep: char)
    requires sep !in s
    ensures Split(s, sep) == [s]
  {
    CountZero(s, sep);
  }

  lemma {:induction false} SplitAfterFirstPiece(a: string, b: string, sep: char)
    requires sep !in a
    ensures Split(a + [sep] + b, sep) == [a] + Split(b, sep)
    decreases |a|
  {
    if |a| == 0 {
      assert a + [sep] + b == [sep] + b;
      assert ([sep] + b)[1..] == b;
    } else {
      var s := a + [sep] + b;
      assert s[1..] == a[1..] + [sep] + b;
      SplitAfterFirstPiece(a[1..], b, sep);
      assert [s[0]] + a[1..] == a;
    }
  }

  /** Splitting a join gives the pieces back when no piece holds the
      separator. */
  lemma {:induction false} SplitJoin(parts: seq<string>, sep: char)
    requires |parts| >= 1
    requires forall i :: 0 <= i < |parts| ==> sep !in parts[i]
    ensures Split(Join(parts, sep), sep) == parts
  {
    if |parts| == 1 {
      SplitNoSeparator(parts[0], sep);
    } else {
      SplitJoin(parts[1..], sep);
      SplitAfterFirstPiece(parts[0], Join(parts[1..], sep), sep);
    }
  }

  // ---------------------------------------------------------------------
  // Padding and centring
  // ---------------------------------------------------------------------

  /** `" " * n`; empty for `n <= 0`, as in Python. */
  function Spaces(n: int): (r: string)
    ensures |r| == if n <= 0 then 0 else n
    ensures forall i :: 0 <= i < |r| ==> r[i] == ' '
  {
    seq(if n <= 0 then 0 else n, i => ' ')
  }

  lemma SpacesAdd(a: nat, b: nat)
    ensures Spaces(a) + Spaces(b) == Spaces(a + b)
  {
  }

  /** `"{:<w}".format(s)`: `s` followed by spaces up to width `w`. */
  function PadRight(s: string, w: int): (r: string)
    ensures |r| == if |s| >= w then |s| else w
    ensures r[..|s|] == s
    ensures forall i :: |s| <= i < |r| ==> r[i] == ' '
  {
    s + Spaces(w - |s|)
  }

  /** `"{:>w}".format(s)`: spaces up to width `w`, then `s`. */
  function PadLeft(s: string, w: int): (r: string)
    ensures |r| == if |s| >= w then |s| else w
    ensures r[|r| - |s|..] == s
    ensures forall i :: 0 <= i < |r| - |s| ==> r[i] == ' '
  {
    Spaces(w - |s|) + s
  }

  /** CPython's `str.center(s, width)`: `s` itself when it is at least
      `width` long; otherwise `s` padded with spaces to exactly `width`.
      The two pads differ by at most one space; the odd space goes to the
      LEFT when `width` is odd and to the right when it is even (CPython
      computes `left = marg/2 + (marg & width & 1)`). */
  function Center(s: string, width: int): (r: string)
    ensures |s| >= width ==> r == s
    ensures |s| < width ==> |r| == width
    ensures |s| < width ==>
      exists left: nat, right: nat ::
        && r == Spaces(left) + s + Spaces(right)
        && (|| left == right
            || (left == right + 1 && width % 2 == 1)
            || (right == left + 1 && width % 2 == 0))
  {
    var marg := width - |s|;
    if marg <= 0 then s
    else
      var left := marg / 2 + (if marg % 2 == 1 && width % 2 == 1 then 1 else 0);
      var r := Spaces(left) + s + Spaces(marg - left);
      assert r == Spaces(left) + s + Spaces(marg - left);
      r
  }

  // ---------------------------------------------------------------------
  // Case folding
  // ---------------------------------------------------------------------

  function LowerChar(c: char): char
  {
    if 'A' <= c <= 'Z' then (c as int + 32) as char else c
  }

  /** `s.lower()` as far as any comparison with an ASCII keyword can tell.
      Python also lowers non-ASCII letters, but the only ones that become
      ASCII are U+212A KELVIN SIGN (to `k`) and U+0130 (to `i` followed by
      the non-ASCII U+0307); no keyword this program compares against
      contains `k`, so every such comparison has the same outcome. */
  function Lower(s: string): (r: string)
    ensures |r| == |s|
    ensures forall i :: 0 <= i < |s| ==> r[i] == LowerChar(s[i])
  {
    seq(|s|, i requires 0 <= i < |s| => LowerChar(s[i]))
  }

  function UpperChar(c: char): char
  {
    if 'a' <= c <= 'z' then (c as int - 32) as char else c
  }

  /** The characters that lower-case to `d`, when `d` is not itself an
      upper-case letter: `d` and its upper-case form. */
  lemma LowerCharIs(c: char, d: char)
    requires !('A' <= d <= 'Z')
    ensures LowerChar(c) == d <==> c == d || c == UpperChar(d)
  {
  }

  /** What comparing `s.lower()` with a lower-case keyword means: the text
      is the keyword, each letter in either case. */
  lemma {:induction false} LowerMatches(s: string, k: string)
    requires forall i :: 0 <= i < |k| ==> !('A' <= k[i] <= 'Z')
    ensures Lower(s) == k <==> |s| == |k| && forall i :: 0 <= i < |s| ==> s[i] == k[i] || s[i] == UpperChar(k[i])
  {
    if |s| == |k| {
      forall i | 0 <= i < |s|
        ensures LowerChar(s[i]) == k[i] <==> s[i] == k[i] || s[i] == UpperChar(k[i])
      {
        LowerCharIs(s[i], k[i]);
      }
      if forall i :: 0 <= i < |s| ==> s[i] == k[i] || s[i] == UpperChar(k[i]) {
        assert forall i :: 0 <= i < |s| ==> Lower(s)[i] == k[i];
      }
    }
  }

  /** Lower-casing leaves text without upper-case ASCII letters alone. */
  lemma LowerIdentity(s: string)
    requires forall i :: 0 <= i < |s| ==> !('A' <= s[i] <= 'Z')
    ensures Lower(s) == s
  {
  }

  // ---------------------------------------------------------------------
  // Decimal numerals
  // ---------------------------------------------------------------------

  predicate IsDigit(c: char)
  {
    '0' <= c <= '9'
  }

  predicate AllDigits(s: string)
  {
    forall i :: 0 <= i < |s| ==> IsDigit(s[i])
  }

  function DigitValue(c: char): nat
    requires IsDigit(c)
  {
    c as int - '0' as int
  }

  function DigitChar(d: nat): (c: char)
    requires d < 10
    ensures IsDigit(c) && DigitValue(c) == d
  {
    ('0' as int + d) as char
  }

  /** The value of a numeral made of decimal digits only. */
  function DecimalValue(ds: string): nat
    requires AllDigits(ds)
  {
    if |ds| == 0 then 0
    else DecimalValue(ds[..|ds| - 1]) * 10 + DigitValue(ds[|ds| - 1])
  }

  /** `str(n)` for a natural number: a non-empty numeral whose value is
      `n`, without a leading zero. */
  function NatToString(n: nat): (s: string)
    ensures |s| >= 1 && AllDigits(s)
    ensures DecimalValue(s) == n
    ensures s[0] != '0' || n == 0
    decreases n
  {
    if n < 10 then [DigitChar(n)]
    else
      var s := NatToString(n / 10) + [DigitChar(n % 10)];
      assert s[..|s| - 1] == NatToString(n / 10);
      s
  }

  function Pow10(k: nat): nat
  {
    if k == 0 then 1 else 10 * Pow10(k - 1)
  }

  /** A number below 10^k has at most k digits. */
  lemma {:induction false} NatToStringShort(n: nat, k: nat)
    requires 1 <= k && n < Pow10(k)
    ensures |NatToString(n)| <= k
    decreases n
  {
    if n >= 10 {
      assert Pow10(1) == 10;
      assert k >= 2;
      NatToStringShort(n / 10, k - 1);
    }
  }

  // ---------------------------------------------------------------------
  // Python's int(s) for base-10 text
  // ---------------------------------------------------------------------

  /** The white space CPython's `int()` skips around a numeral. It first
      keeps every ASCII character as it is and turns each non-ASCII
      character that `str.isspace` accepts into a plain space; the parser
      then skips the space and `\t` to `\r`. So the ASCII separators
      U+001C to U+001F are not skipped, while U+0085, U+00A0 and the other
      non-ASCII spaces are. */
  predicate IsIntSpace(c: char)
  {
    || c == ' ' || ('\t' <= c <= '\r')
    || c == '\U{85}' || c == '\U{A0}' || c == '\U{1680}'
    || ('\U{2000}' <= c <= '\U{200A}')
    || c == '\U{2028}' || c == '\U{2029}' || c == '\U{202F}'
    || c == '\U{205F}' || c == '\U{3000}'
  }

  function TrimStart(s: string): (r: string)
    ensures |r| <= |s| && r == s[|s| - |r|..]
    ensures |r| > 0 ==> !IsIntSpace(r[0])
    ensures forall i :: 0 <= i < |s| - |r| ==> IsIntSpace(s[i])
  {
    if |s| > 0 && IsIntSpace(s[0]) then TrimStart(s[1..]) else s
  }

  function TrimEnd(s: string): (r: string)
    ensures |r| <= |s| && r == s[..|r|]
    ensures |r| > 0 ==> !IsIntSpace(r[|r| - 1])
    ensures forall i :: |r| <= i < |s| ==> IsIntSpace(s[i])
  {
    if |s| > 0 && IsIntSpace(s[|s| - 1]) then TrimEnd(s[..|s| - 1]) else s
  }

  /** The digit part CPython accepts in base 10: ASCII digits, where an
      underscore may stand only between two digits. */
  predicate DigitBody(t: string)
  {
    && |t| >= 1
    && IsDigit(t[0])
    && IsDigit(t[|t| - 1])
    && (forall i :: 0 <= i < |t| ==> IsDigit(t[i]) || t[i] == '_')
    && (forall i :: 0 <= i < |t| - 1 ==> IsDigit(t[i]) || IsDigit(t[i + 1]))
  }

  function DropUnderscores(t: string): (r: string)
    requires forall i :: 0 <= i < |t| ==> IsDigit(t[i]) || t[i] == '_'
    ensures AllDigits(r)
  {
    if |t| == 0 then ""
    else (if t[0] == '_' then "" else [t[0]]) + DropUnderscores(t[1..])
  }

  function BodyValue(t: string): nat
    requires DigitBody(t)
  {
    DecimalValue(DropUnderscores(t))
  }

  /** `int(s)`: surrounding white space skipped, an optional sign, then a
      digit body; `None` where Python raises `ValueError`. */
  function ParseInt(s: string): (r: Option<int>)
    ensures (forall i :: 0 <= i < |s| ==> IsIntSpace(s[i])) ==> r.None?
    ensures r.Some? ==> exists i :: 0 <= i < |s| && IsDigit(s[i])
  {
    var u := TrimStart(s);
    var t := TrimEnd(u);
    var r := ParseSigned(t);
    if r.Some? then
      TrimmedWitness(s, u, t);
      r
    else r
  }

  /** Where an accepted numeral sits in `s`: after the white space
      `TrimStart` skips comes a character that is not white space, and the
      numeral's last character is a digit. */
  lemma TrimmedWitness(s: string, u: string, t: string)
    requires u == TrimStart(s) && t == TrimEnd(u) && ParseSigned(t).Some?
    ensures var k := |s| - |u|;
      && 0 <= k && k + |t| <= |s| && 1 <= |t|
      && !IsIntSpace(s[k]) && IsDigit(s[k + |t| - 1])
  {
    InnerSlice(s, u, t);
    assert t[0] == u[0];
  }

  /** A prefix `t` of a suffix `u` of `s` sits in `s` where `u` starts. */
  lemma InnerSlice(s: string, u: string, t: string)
    requires |u| <= |s| && u == s[|s| - |u|..] && |t| <= |u| && t == u[..|t|]
    ensures forall j :: 0 <= j < |t| ==> s[|s| - |u| + j] == t[j]
  {
    forall j | 0 <= j < |t|
      ensures s[|s| - |u| + j] == t[j]
    {
      assert t[j] == u[j];
    }
  }

  /** `int(t)` once the surrounding white space is gone. */
  function ParseSigned(t: string): (r: Option<int>)
    ensures r.Some? ==> |t| >= 1 && IsDigit(t[|t| - 1])
  {
    if |t| >= 1 && (t[0] == '+' || t[0] == '-') then
      var body := t[1..];
      if DigitBody(body) then
        var v: int := BodyValue(body);
        Some(if t[0] == '-' then -v else v)
      else None
    else if DigitBody(t) then Some(BodyValue(t))
    else None
  }

  lemma {:induction false} DropUnderscoresOfDigits(ds: string)
    requires AllDigits(ds)
    ensures DropUnderscores(ds) == ds
  {
    if |ds| > 0 {
      DropUnderscoresOfDigits(ds[1..]);
      assert ds == [ds[0]] + ds[1..];
    }
  }

  /** Text that starts and ends with a character other than white space
      is left alone by the trimming, so `int(s)` reads the sign and digits
      directly. */
  lemma ParseIntUntrimmed(s: string)
    requires |s| >= 1 && !IsIntSpace(s[0]) && !IsIntSpace(s[|s| - 1])
    ensures ParseInt(s) == ParseSigned(s)
  {
    assert TrimStart(s) == s;
  }

  lemma {:induction false} TrimStartSpaces(pre: string, u: string)
    requires forall i :: 0 <= i < |pre| ==> IsIntSpace(pre[i])
    requires |u| >= 1 && !IsIntSpace(u[0])
    ensures TrimStart(pre + u) == u
    decreases |pre|
  {
    if |pre| == 0 {
      assert pre + u == u;
    } else {
      assert (pre + u)[0] == pre[0] && (pre + u)[1..] == pre[1..] + u;
      TrimStartSpaces(pre[1..], u);
    }
  }

  lemma {:induction false} TrimEndSpaces(u: string, post: string)
    requires forall i :: 0 <= i < |post| ==> IsIntSpace(post[i])
    requires |u| >= 1 && !IsIntSpace(u[|u| - 1])
    ensures TrimEnd(u + post) == u
    decreases |post|
  {
    if |post| == 0 {
      assert u + post == u;
    } else {
      var w := u + post;
      assert w[|w| - 1] == post[|post| - 1];
      assert w[..|w| - 1] == u + post[..|post| - 1];
      TrimEndSpaces(u, post[..|post| - 1]);
    }
  }

  /** `int()` ignores white space around the numeral: text `t` that
      neither starts nor ends with white space reads the same with any
      white space put before and after it. */
  lemma ParseIntSpaces(pre: string, t: string, post: string)
    requires forall i :: 0 <= i < |pre| ==> IsIntSpace(pre[i])
    requires forall i :: 0 <= i < |post| ==> IsIntSpace(post[i])
    requires |t| >= 1 && !IsIntSpace(t[0]) && !IsIntSpace(t[|t| - 1])
    ensures ParseInt(pre + t + post) == ParseSigned(t)
  {
    var u := t + post;
    assert (t + post)[0] == t[0];
    assert pre + t + post == pre + u;
    TrimStartSpaces(pre, u);
    TrimEndSpaces(t, post);
  }

  /** The non-ASCII no-break space U+00A0 is white space to `int()`. */
  lemma ParseIntNoBreakSpace()
    ensures ParseInt("5\U{A0}") == Some(5)
  {
    var t := "5";
    assert ParseSigned(t) == Some(5) by {
      assert DigitBody(t);
      assert DropUnderscores(t) == t by {
        assert t[1..] == "";
      }
      assert DecimalValue(t) == 5 by {
        assert t[..0] == "";
      }
    }
    assert ParseInt("5\U{A0}") == ParseSigned(t) by {
      ParseIntSpaces("", t, "\U{A0}");
      assert "" + t + "\U{A0}" == "5\U{A0}";
    }
  }

  /** The ASCII separator U+001C is not white space to `int()`, so a
      numeral after it is rejected. */
  lemma ParseIntFileSeparator()
    ensures ParseInt("\U{1C}5\U{A0}") == None
  {
    var t := "\U{1C}5";
    assert ParseSigned(t) == None by {
      assert !IsDigit(t[0]) && t[0] != '+' && t[0] != '-';
    }
    assert ParseInt("\U{1C}5\U{A0}") == ParseSigned(t) by {
      ParseIntSpaces("", t, "\U{A0}");
      assert "" + t + "\U{A0}" == "\U{1C}5\U{A0}";
    }
  }

  /** `int(str(n)) == n`: the numeral of a natural number parses back to
      it. */
  lemma ParseIntOfNumeral(n: nat)
    ensures ParseInt(NatToString(n)) == Some(n)
  {
    var s := NatToString(n);
    assert IsDigit(s[0]) && IsDigit(s[|s| - 1]);
    ParseIntUntrimmed(s);
    assert DigitBody(s);
    DropUnderscoresOfDigits(s);
    assert BodyValue(s) == n;
  }

  /** `int("-" + str(n)) == -n`. */
  lemma ParseIntOfNegativeNumeral(n: int)
    requires n >= 0
    ensures ParseInt("-" + NatToString(n)) == Some(-n)
  {
    var s := NatToString(n);
    var t := "-" + s;
    assert IsDigit(s[|s| - 1]) && t[|t| - 1] == s[|s| - 1];
    ParseIntUntrimmed(t);
    NegativeBody(s, n);
  }

  lemma NegativeBody(s: string, n: int)
    requires n >= 0 && s == NatToString(n)
    ensures ParseSigned("-" + s) == Some(-n)
  {
    var t := "-" + s;
    assert t[1..] == s;
    assert IsDigit(s[0]) && IsDigit(s[|s| - 1]);
    assert DigitBody(s);
    DropUnderscoresOfDigits(s);
    assert BodyValue(s) == n;
  }
}
