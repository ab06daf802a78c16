/** Small value types and string helpers shared by the other modules. */
module Util {

  datatype Option<T> = None | Some(value: T)

  /** Python's `f"{x}"` of an optional string: a missing value prints as `None`. */
  function ShowOpt(x: Option<string>): (s: string)
    ensures x.Some? ==> s == x.value
    ensures x.None? ==> s == "None"
  {
    match x
    case Some(v) => v
    case None => "None"
  }

  /** The `"" / None` test the form handlers use (`not_acceptable = ["", None]`). */
  predicate Acceptable(x: Option<string>)
  {
    x.Some? && x.value != ""
  }

  function DigitChar(d: nat): (c: char)
    requires d < 10
    ensures '0' <= c <= '9'
  {
    "0123456789"[d]
  }

  lemma DigitCharValue(d: nat)
    requires d < 10
    ensures DigitChar(d) as int - '0' as int == d
  {
  }

  /** Decimal rendering of a natural number, as `str(i)` prints it. */
  function NatToString(n: nat): (s: string)
    ensures |s| >= 1
    ensures forall k :: 0 <= k < |s| ==> '0' <= s[k] <= '9'
    ensures n < 10 ==> |s| == 1
    ensures n >= 10 ==> s[0] != '0'
    decreases n
  {
    if n < 10 then [DigitChar(n)] else NatToString(n / 10) + [DigitChar(n % 10)]
  }

  /** Value of a string of decimal digits; the inverse of NatToString. */
  function DigitsValue(s: string): int
    decreases |s|
  {
    if s == [] then 0 else DigitsValue(s[..|s| - 1]) * 10 + (s[|s| - 1] as int - '0' as int)
  }

  lemma {:induction false} NatToStringRoundTrip(n: nat)
    ensures DigitsValue(NatToString(n)) == n
    decreases n
  {
    if n >= 10 {
      NatToStringRoundTrip(n / 10);
      var s := NatToString(n);
      assert s == NatToString(n / 10) + [DigitChar(n % 10)];
      assert s[..|s| - 1] == NatToString(n / 10);
      DigitCharValue(n % 10);
      assert DigitsValue(s) == (n / 10) * 10 + n % 10;
    } else {
      DigitCharValue(n);
    }
  }

  /** Different numbers render differently, so the per-plot form keys never collide. */
  lemma NatToStringInjective(m: nat, n: nat)
    requires NatToString(m) == NatToString(n)
    ensures m == n
  {
    NatToStringRoundTrip(m);
    NatToStringRoundTrip(n);
  }

  /** `sep.join(parts)`. */
  function Join(parts: seq<string>, sep: string): (s: string)
    ensures parts == [] ==> s == ""
    ensures |parts| == 1 ==> s == parts[0]
    decreases |parts|
  {
    if parts == [] then ""
    else if |parts| == 1 then parts[0]
    else parts[0] + sep + Join(parts[1..], sep)
  }

  /** Joining a non-empty list and then one more part is the same as joining the longer list. */
  lemma {:induction false} JoinSnoc(parts: seq<string>, sep: string, x: string)
    requires parts != []
    ensures Join(parts + [x], sep) == Join(parts, sep) + sep + x
    decreases |parts|
  {
    if |parts| == 1 {
      assert parts + [x] == [parts[0], x];
      assert ([parts[0], x])[1..] == [x];
    } else {
      assert (parts + [x])[1..] == parts[1..] + [x];
      JoinSnoc(parts[1..], sep, x);
    }
  }

  /** Python's `str.replace(old, new)` for one-character `old` and `new`. */
  function ReplaceChar(s: string, target: char, replacement: char): (r: string)
    ensures |r| == |s|
    ensures forall k :: 0 <= k < |s| ==> r[k] == (if s[k] == target then replacement else s[k])
    decreases |s|
  {
    if s == [] then [] else [if s[0] == target then replacement else s[0]] + ReplaceChar(s[1..], target, replacement)
  }

  /** The characters `str.strip()` removes: those `str.isspace()` accepts, that is the
      Unicode characters of category Zs or of bidirectional class WS, B or S. */
  predicate IsSpace(c: char)
  {
    ('\U{0009}' <= c <= '\U{000D}') || ('\U{001C}' <= c <= '\U{0020}') ||
    c == '\U{0085}' || c == '\U{00A0}' || c == '\U{1680}' ||
    ('\U{2000}' <= c <= '\U{200A}') || c == '\U{2028}' || c == '\U{2029}' ||
    c == '\U{202F}' || c == '\U{205F}' || c == '\U{3000}'
  }

  /** `len(s.strip()) == 0`. */
  predicate IsBlank(s: string)
  {
    forall k :: 0 <= k < |s| ==> IsSpace(s[k])
  }

  /** `s[::-1]`. */
  function Reverse<T>(s: seq<T>): (r: seq<T>)
    ensures |r| == |s|
    ensures forall k :: 0 <= k < |s| ==> r[k] == s[|s| - 1 - k]
    decreases |s|
  {
    if s == [] then [] else Reverse(s[1..]) + [s[0]]
  }

  /** The distinct elements of `xs` in order of first appearance (pandas `unique`, and the
      key order of a dict filled in list order). */
  function Unique<T(==)>(xs: seq<T>): (u: seq<T>)
    ensures |u| <= |xs|
    decreases |xs|
  {
    if xs == [] then []
    else
      var init := Unique(xs[..|xs| - 1]);
      init + (if xs[|xs| - 1] in init then [] else [xs[|xs| - 1]])
  }

  lemma UniqueSnoc<T>(xs: seq<T>, x: T)
    ensures Unique(xs + [x]) == Unique(xs) + (if x in Unique(xs) then [] else [x])
  {
    assert (xs + [x])[..|xs|] == xs;
  }

  /** No element is listed twice. */
  lemma {:induction false} UniqueDistinct<T>(xs: seq<T>)
    ensures forall j, k :: 0 <= j < k < |Unique(xs)| ==> Unique(xs)[j] != Unique(xs)[k]
    decreases |xs|
  {
    if xs != [] {
      UniqueDistinct(xs[..|xs| - 1]);
    }
  }

  /** The elements listed are exactly the elements of `xs`. */
  lemma {:induction false} UniqueMembers<T>(xs: seq<T>, x: T)
    ensures x in Unique(xs) <==> x in xs
    decreases |xs|
  {
    if xs != [] {
      var init := xs[..|xs| - 1];
      assert xs == init + [xs[|xs| - 1]];
      UniqueMembers(init, x);
    }
  }
}
