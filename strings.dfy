/** The few Python string built-ins the editor relies on: `str(n)`,
    `int(s)`, `'{0:03d}'.format(n)`, `s.rsplit('.', 1)`, `s.split('_')` and
    `'_'.join(parts)`, written out over `seq<char>` with the round trips
    that the name helpers depend on. */
module PyStr {

  datatype Option<T> = None | Some(value: T)

  predicate IsDigit(c: char) { '0' <= c <= '9' }

  function DigitChar(d: nat): (c: char)
    requires d < 10
    ensures IsDigit(c) && c as int - '0' as int == d
  {
    (d + '0' as int) as char
  }

  predicate AllDigits(s: string) { forall i :: 0 <= i < |s| ==> IsDigit(s[i]) }

  /** Decimal value of a string of ASCII digits (leading zeros allowed, as in Python's int()). */
  function DigitsValue(s: string): nat
    requires AllDigits(s)
  {
    if s == [] then 0
    else 10 * DigitsValue(s[..|s| - 1]) + (s[|s| - 1] as int - '0' as int)
  }

  /** `str(n)` for a non-negative integer: no leading zeros, "0" for zero. */
  function NatToString(n: nat): string
    decreases n
  {
    if n < 10 then [DigitChar(n)]
    else NatToString(n / 10) + [DigitChar(n % 10)]
  }

  /** `str(n)` is a non-empty run of digits without a leading zero. */
  lemma {:induction false} NatToStringDigits(n: nat)
    ensures var s := NatToString(n);
      |s| >= 1 && AllDigits(s) && (|s| > 1 ==> s[0] != '0')
    decreases n
  {
    if n >= 10 {
      NatToStringDigits(n / 10);
    }
  }

  /** `str(i)` for any integer. */
  function IntToString(i: int): string
  {
    if i < 0 then "-" + NatToString(-i) else NatToString(i)
  }

  function Zeros(n: nat): (z: string)
    ensures |z| == n && AllDigits(z)
    ensures forall i :: 0 <= i < n ==> z[i] == '0'
  {
    if n == 0 then [] else Zeros(n - 1) + "0"
  }

  /** Left-pads a digit string with '0' up to `width` characters. */
  function PadZeros(s: string, width: nat): (r: string)
    requires AllDigits(s)
    ensures AllDigits(r)
    ensures |r| == if |s| < width then width else |s|
  {
    if |s| < width then Zeros(width - |s|) + s else s
  }

  /** `'{0:03d}'.format(k)`: the width of 3 counts the sign of a negative number. */
  function Format03(k: int): (s: string)
    ensures '.' !in s && |s| >= 3
  {
    NatToStringDigits(if k < 0 then -k else k);
    if k < 0 then "-" + PadZeros(NatToString(-k), 2) else PadZeros(NatToString(k), 3)
  }

  /** Python's `int(s)` on the strings it accepts here: an optional sign
      followed by at least one ASCII digit. Anything else raises ValueError,
      modelled as None. */
  function ParseInt(s: string): (r: Option<int>)
    ensures r.Some? <==>
      (|s| >= 1 && AllDigits(s)) || (|s| >= 2 && (s[0] == '-' || s[0] == '+') && AllDigits(s[1..]))
    ensures |s| >= 1 && AllDigits(s) ==> r == Some(DigitsValue(s) as int)
    ensures |s| >= 2 && s[0] == '-' && AllDigits(s[1..]) ==> r == Some(-(DigitsValue(s[1..]) as int))
  {
    if |s| >= 2 && s[0] == '-' && AllDigits(s[1..]) then Some(-(DigitsValue(s[1..]) as int))
    else if |s| >= 2 && s[0] == '+' && AllDigits(s[1..]) then Some(DigitsValue(s[1..]))
    else if |s| >= 1 && AllDigits(s) then Some(DigitsValue(s))
    else None
  }

  lemma {:induction false} DigitsValueSnoc(s: string, c: char)
    requires AllDigits(s) && IsDigit(c)
    ensures AllDigits(s + [c])
    ensures DigitsValue(s + [c]) == 10 * DigitsValue(s) + (c as int - '0' as int)
  {
    assert (s + [c])[..|s + [c]| - 1] == s;
  }

  /** `int(str(n)) == n`. */
  lemma {:induction false} NatToStringValue(n: nat)
    ensures AllDigits(NatToString(n)) && DigitsValue(NatToString(n)) == n
    decreases n
  {
    NatToStringDigits(n);
    if n < 10 {
      assert NatToString(n)[..0] == [];
    } else {
      NatToStringValue(n / 10);
      DigitsValueSnoc(NatToString(n / 10), DigitChar(n % 10));
    }
  }

  /** Leading zeros do not change the value of a digit string. */
  lemma {:induction false} ZerosPrefixValue(n: nat, s: string)
    requires AllDigits(s)
    ensures AllDigits(Zeros(n) + s)
    ensures DigitsValue(Zeros(n) + s) == DigitsValue(s)
    decreases |s|
  {
    if s == [] {
      ZerosValue(n);
      assert Zeros(n) + s == Zeros(n);
    } else {
      var init, last := s[..|s| - 1], s[|s| - 1];
      assert s == init + [last];
      ZerosPrefixValue(n, init);
      assert Zeros(n) + s == (Zeros(n) + init) + [last];
      DigitsValueSnoc(Zeros(n) + init, last);
      DigitsValueSnoc(init, last);
    }
  }

  lemma {:induction false} ZerosValue(n: nat)
    ensures DigitsValue(Zeros(n)) == 0
  {
    if n > 0 {
      ZerosValue(n - 1);
      DigitsValueSnoc(Zeros(n - 1), '0');
    }
  }

  lemma PadZerosValue(s: string, width: nat)
    requires AllDigits(s)
    ensures DigitsValue(PadZeros(s, width)) == DigitsValue(s)
  {
    if |s| < width { ZerosPrefixValue(width - |s|, s); }
  }

  /** `int("-" + ds) == -int(ds)` for a non-empty digit string. */
  lemma ParseNegative(ds: string)
    requires |ds| >= 1 && AllDigits(ds)
    ensures ParseInt("-" + ds) == Some(-(DigitsValue(ds) as int))
  {
    assert ("-" + ds)[1..] == ds;
  }

  /** A non-empty digit string parses to its value. */
  lemma ParseDigits(ds: string)
    requires |ds| >= 1 && AllDigits(ds)
    ensures ParseInt(ds) == Some(DigitsValue(ds) as int)
  {
    assert IsDigit(ds[0]);
  }

  /** `int(str(i)) == i`. */
  lemma IntToStringParse(i: int)
    ensures ParseInt(IntToString(i)) == Some(i)
  {
    var ds := NatToString(if i < 0 then -i else i);
    NatToStringValue(if i < 0 then -i else i);
    if i < 0 {
      assert IntToString(i) == "-" + ds;
      ParseNegative(ds);
    } else {
      assert IntToString(i) == ds;
      ParseDigits(ds);
    }
  }

  /** The zero-padded suffix written by the name helpers reads back as the
      same integer: `int('{0:03d}'.format(k)) == k`. */
  lemma ParseFormat03(k: int)
    ensures ParseInt(Format03(k)) == Some(k)
  {
    if k < 0 {
      var ds := NatToString(-k);
      NatToStringValue(-k);
      var digits := PadZeros(ds, 2);
      PadZerosValue(ds, 2);
      assert Format03(k) == "-" + digits;
      ParseNegative(digits);
    } else {
      var ds := NatToString(k);
      NatToStringValue(k);
      var digits := PadZeros(ds, 3);
      PadZerosValue(ds, 3);
      assert Format03(k) == digits;
      ParseDigits(digits);
    }
  }

  /** Position of the last '.' in `s`, or -1 when there is none. */
  function LastDot(s: string): (j: int)
    ensures -1 <= j < |s|
    ensures j >= 0 ==> s[j] == '.' && '.' !in s[j + 1..]
    ensures j < 0 ==> '.' !in s
  {
    if s == [] then -1
    else if s[|s| - 1] == '.' then |s| - 1
    else
      var j := LastDot(s[..|s| - 1]);
      assert j >= 0 ==> s[j + 1..] == s[..|s| - 1][j + 1..] + [s[|s| - 1]];
      assert j < 0 ==> s == s[..|s| - 1] + [s[|s| - 1]];
      j
  }

  /** `s.rsplit('.', 1)`: one part when `s` has no '.', otherwise the text
      before and after the last '.'. */
  function RSplitDot(s: string): (parts: seq<string>)
    ensures |parts| == 1 <==> '.' !in s
    ensures |parts| == 1 ==> parts[0] == s
    ensures |parts| != 1 ==> |parts| == 2 && s == parts[0] + "." + parts[1] && '.' !in parts[1]
  {
    var j := LastDot(s);
    if j < 0 then [s] else [s[..j], s[j + 1..]]
  }

  /** Splitting `p + "." + d` at its last dot gives back `p` and `d`
      whenever `d` holds no dot. */
  lemma RSplitDotOf(p: string, d: string)
    requires '.' !in d
    ensures RSplitDot(p + "." + d) == [p, d]
  {
    var s := p + "." + d;
    LastDotAppend(p + ".", d);
    assert s[..|p|] == p && s[|p| + 1..] == d;
  }

  lemma {:induction false} LastDotAppend(x: string, d: string)
    requires '.' !in d
    ensures LastDot(x + d) == LastDot(x)
    decreases |d|
  {
    if d != [] {
      var d' := d[..|d| - 1];
      assert (x + d)[..|x + d| - 1] == x + d';
      assert (x + d)[|x + d| - 1] == d[|d| - 1];
      assert '.' !in d' by { assert forall i :: 0 <= i < |d'| ==> d'[i] == d[i]; }
      LastDotAppend(x, d');
    } else {
      assert x + d == x;
    }
  }

  /** `s.split('_')`: the maximal '_'-free pieces, in order; never empty. */
  function Split(s: string, sep: char): (parts: seq<string>)
    ensures |parts| >= 1
    ensures forall i :: 0 <= i < |parts| ==> sep !in parts[i]
    decreases |s|
  {
    if sep !in s then [s]
    else
      var j := FirstIndex(s, sep);
      [s[..j]] + Split(s[j + 1..], sep)
  }

  function FirstIndex(s: string, c: char): (j: nat)
    requires c in s
    ensures j < |s| && s[j] == c && c !in s[..j]
  {
    if s[0] == c then 0
    else
      assert c in s[1..] by { var k :| 0 <= k < |s| && s[k] == c; assert s[1..][k - 1] == c; }
      var j := FirstIndex(s[1..], c);
      assert s[..j + 1] == [s[0]] + s[1..][..j];
      1 + j
  }

  /** `sep.join(parts)`. */
  function Join(parts: seq<string>, sep: char): (s: string)
    requires |parts| >= 1
  {
    if |parts| == 1 then parts[0] else parts[0] + [sep] + Join(parts[1..], sep)
  }

  /** `sep.join(s.split(sep)) == s`. */
  lemma {:induction false} JoinSplit(s: string, sep: char)
    ensures Join(Split(s, sep), sep) == s
    decreases |s|
  {
    if sep in s {
      var j := FirstIndex(s, sep);
      JoinSplit(s[j + 1..], sep);
      assert Split(s, sep)[1..] == Split(s[j + 1..], sep);
      assert s == s[..j] + [sep] + s[j + 1..];
    }
  }

  /** Splitting a join of separator-free pieces gives the pieces back. */
  lemma {:induction false} SplitJoin(parts: seq<string>, sep: char)
    requires |parts| >= 1
    requires forall i :: 0 <= i < |parts| ==> sep !in parts[i]
    ensures Split(Join(parts, sep), sep) == parts
    decreases |parts|
  {
    if |parts| > 1 {
      var rest := Join(parts[1..], sep);
      assert Join(parts, sep) == parts[0] + [sep] + rest;
      SplitCons(parts[0], sep, rest);
      SplitJoin(parts[1..], sep);
      assert parts == [parts[0]] + parts[1..];
    } else {
      assert Join(parts, sep) == parts[0];
    }
  }

  /** Splitting `a + [sep] + rest` with `a` free of `sep` peels off `a`. */
  lemma SplitCons(a: string, sep: char, rest: string)
    requires sep !in a
    ensures Split(a + [sep] + rest, sep) == [a] + Split(rest, sep)
  {
    var s := a + [sep] + rest;
    assert s[|a|] == sep;
    FirstIndexAfter(a, sep, rest);
    assert s[..|a|] == a;
    assert s[|a| + 1..] == rest;
  }

  lemma {:induction false} FirstIndexAfter(a: string, c: char, b: string)
    requires c !in a
    ensures FirstIndex(a + [c] + b, c) == |a|
    decreases |a|
  {
    if a != [] {
      assert (a + [c] + b)[1..] == a[1..] + [c] + b;
      assert c !in a[1..] by { assert forall i :: 0 <= i < |a[1..]| ==> a[1..][i] == a[i + 1]; }
      FirstIndexAfter(a[1..], c, b);
    }
  }
}
