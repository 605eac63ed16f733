/** The string operations of Go's standard library that the core relies on:
    `strings.HasPrefix`, substring containment (the model of SQL `LIKE '%q%'`),
    `strings.TrimSpace`, `strings.Split`/`strings.Join` on a one-character
    separator, and `%d` formatting of an integer. Strings are sequences of
    Unicode code points. */
module Text {

  /** `strings.HasPrefix(s, p)`. */
  predicate HasPrefix(s: string, p: string) {
    |p| <= |s| && s[..|p|] == p
  }

  /** `q` occurs in `s` as a contiguous substring. */
  predicate Contains(s: string, q: string)
    decreases |s|
  {
    HasPrefix(s, q) || (|s| > 0 && Contains(s[1..], q))
  }

  /** `q` occurs in `s` starting at position `i`. */
  predicate OccursAt(s: string, q: string, i: nat) {
    i + |q| <= |s| && s[i..i + |q|] == q
  }

  /** Containment by recursion agrees with containment at an explicit offset. */
  lemma {:induction false} ContainsAt(s: string, q: string)
    ensures Contains(s, q) <==> exists i: nat :: OccursAt(s, q, i)
    decreases |s|
  {
    if HasPrefix(s, q) {
      assert OccursAt(s, q, 0);
    } else if |s| == 0 {
    } else {
      ContainsAt(s[1..], q);
      if Contains(s[1..], q) {
        var i: nat :| OccursAt(s[1..], q, i);
        assert s[1..][i..i + |q|] == s[i + 1..i + 1 + |q|];
        assert OccursAt(s, q, i + 1);
      } else {
        forall i: nat ensures !OccursAt(s, q, i) {
          if i == 0 {
            assert OccursAt(s, q, 0) <==> HasPrefix(s, q) by {
              if |q| <= |s| {
                assert s[0..|q|] == s[..|q|];
              }
            }
          } else {
            assert OccursAt(s, q, i) <==> OccursAt(s[1..], q, i - 1) by {
              if i + |q| <= |s| {
                assert s[1..][i - 1..i - 1 + |q|] == s[i..i + |q|];
              }
            }
          }
        }
      }
    }
  }

  /** Go's `unicode.IsSpace`: the ASCII white space characters, U+0085,
      U+00A0 and the other code points with the White_Space property. */
  predicate IsSpace(c: char) {
    c == ' ' || c == '\t' || c == '\n' || c == '\r' || c == '\U{000B}' || c == '\U{000C}'
    || c == '\U{0085}' || c == '\U{00A0}' || c == '\U{1680}'
    || ('\U{2000}' <= c <= '\U{200A}')
    || c == '\U{2028}' || c == '\U{2029}' || c == '\U{202F}' || c == '\U{205F}' || c == '\U{3000}'
  }

  /** `strings.TrimLeftFunc(s, unicode.IsSpace)`. */
  function TrimLeft(s: string): (r: string)
    ensures |r| <= |s| && r == s[|s| - |r|..]
    ensures forall i | 0 <= i < |s| - |r| :: IsSpace(s[i])
    ensures r != [] ==> !IsSpace(r[0])
    decreases |s|
  {
    if |s| > 0 && IsSpace(s[0]) then TrimLeft(s[1..]) else s
  }

  /** `strings.TrimRightFunc(s, unicode.IsSpace)`. */
  function TrimRight(s: string): (r: string)
    ensures |r| <= |s| && r == s[..|r|]
    ensures forall i | |r| <= i < |s| :: IsSpace(s[i])
    ensures r != [] ==> !IsSpace(r[|r| - 1])
    decreases |s|
  {
    if |s| > 0 && IsSpace(s[|s| - 1]) then TrimRight(s[..|s| - 1]) else s
  }

  /** `strings.TrimSpace(s)`: `s` without its leading and trailing white space. */
  function TrimSpace(s: string): (r: string)
    ensures r != [] ==> !IsSpace(r[0]) && !IsSpace(r[|r| - 1])
  {
    TrimRight(TrimLeft(s))
  }

  /** Every character of `s` is white space. */
  predicate AllSpace(s: string) {
    forall k | 0 <= k < |s| :: IsSpace(s[k])
  }

  /** The trimmed string is a contiguous piece of the input and only white
      space was cut away on either side. */
  lemma TrimSpaceIsSlice(s: string)
    ensures exists i: nat, j: nat | i <= j <= |s| ::
              TrimSpace(s) == s[i..j] && AllSpace(s[..i]) && AllSpace(s[j..])
  {
    var l := TrimLeft(s);
    var i := |s| - |l|;
    var r := TrimRight(l);
    var j := i + |r|;
    LeadingSpace(s, i);
    SuffixSlices(s, i, |r|);
    TrailingSpace(l, |r|);
    assert TrimSpace(s) == s[i..j] && AllSpace(s[..i]) && AllSpace(s[j..]);
  }

  /** Cutting the suffix `s[i..]` at `m` cuts `s` at `i + m`. */
  lemma SuffixSlices(s: string, i: nat, m: nat)
    requires i + m <= |s|
    ensures s[i..][..m] == s[i..i + m] && s[i..][m..] == s[i + m..]
  {
  }

  /** When the characters from position `m` on are white space, so is the
      suffix from `m`. */
  lemma TrailingSpace(t: string, m: nat)
    requires m <= |t|
    requires forall k | m <= k < |t| :: IsSpace(t[k])
    ensures AllSpace(t[m..])
  {
    forall k | 0 <= k < |t| - m ensures IsSpace(t[m..][k]) {
      assert t[m..][k] == t[m + k];
    }
  }

  /** When the characters before position `i` are white space, so is the
      prefix up to `i`. */
  lemma LeadingSpace(s: string, i: nat)
    requires i <= |s|
    requires forall k | 0 <= k < i :: IsSpace(s[k])
    ensures AllSpace(s[..i])
  {
    forall k | 0 <= k < i ensures IsSpace(s[..i][k]) {
      assert s[..i][k] == s[k];
    }
  }

  /** Trimming leaves nothing exactly when the input is all white space. */
  lemma TrimSpaceEmpty(s: string)
    ensures TrimSpace(s) == [] <==> AllSpace(s)
  {
    var l := TrimLeft(s);
    var r := TrimRight(l);
    assert r != [] ==> r[0] == l[0] == s[|s| - |l|] && !IsSpace(s[|s| - |l|]);
  }

  /** `strings.Split(s, sep)` for a one-character separator: the pieces
      between the separators, one more than there are separators. */
  function Split(s: string, sep: char): (parts: seq<string>)
    ensures |parts| >= 1
    ensures forall k | 0 <= k < |parts| :: sep !in parts[k]
    decreases |s|
  {
    if sep !in s then [s]
    else
      var i := FirstIndex(s, sep);
      [s[..i]] + Split(s[i + 1..], sep)
  }

  /** The position of the first `c` in `s`. */
  function FirstIndex(s: string, c: char): (i: nat)
    requires c in s
    ensures i < |s| && s[i] == c && c !in s[..i]
  {
    if s[0] == c then 0 else 1 + FirstIndex(s[1..], c)
  }

  /** `strings.Join(parts, sep)` for a one-character separator. */
  function Join(parts: seq<string>, sep: char): string
    decreases |parts|
  {
    if parts == [] then ""
    else if |parts| == 1 then parts[0]
    else parts[0] + [sep] + Join(parts[1..], sep)
  }

  /** Joining the pieces of a split gives back the original string. */
  lemma {:induction false} JoinSplit(s: string, sep: char)
    ensures Join(Split(s, sep), sep) == s
    decreases |s|
  {
    if sep in s {
      var i := FirstIndex(s, sep);
      var rest := Split(s[i + 1..], sep);
      JoinSplit(s[i + 1..], sep);
      assert Split(s, sep) == [s[..i]] + rest;
      assert ([s[..i]] + rest)[1..] == rest;
      assert Join([s[..i]] + rest, sep) == s[..i] + [sep] + Join(rest, sep);
      assert s == s[..i] + [sep] + s[i + 1..];
    }
  }

  /** Everything after the first `sep`, which is what joining all pieces but
      the first gives; the empty string when `s` holds no separator. */
  lemma DropFirstPiece(s: string, sep: char)
    ensures sep !in s ==> Join(Split(s, sep)[1..], sep) == ""
    ensures sep in s ==>
              Join(Split(s, sep)[1..], sep) == s[FirstIndex(s, sep) + 1..]
  {
    if sep in s {
      var i := FirstIndex(s, sep);
      assert Split(s, sep)[1..] == Split(s[i + 1..], sep);
      JoinSplit(s[i + 1..], sep);
    }
  }

  /** The decimal digit for `d`. */
  function Digit(d: nat): char
    requires d < 10
  {
    "0123456789"[d]
  }

  /** The value of a decimal digit. */
  function DigitValue(c: char): nat {
    if '0' <= c <= '9' then (c as int - '0' as int) as nat else 0
  }

  /** The decimal spelling of a natural number, without leading zeros. */
  function NatString(n: nat): (s: string)
    ensures |s| >= 1
    ensures forall k | 0 <= k < |s| :: '0' <= s[k] <= '9'
    ensures |s| > 1 ==> s[0] != '0'
  {
    if n < 10 then [Digit(n)] else NatString(n / 10) + [Digit(n % 10)]
  }

  /** The number a string of decimal digits spells. */
  function DigitsValue(s: string): nat {
    if s == [] then 0 else 10 * DigitsValue(s[..|s| - 1]) + DigitValue(s[|s| - 1])
  }

  /** Reading back a spelled number gives the number. */
  lemma {:induction false} NatStringValue(n: nat)
    ensures DigitsValue(NatString(n)) == n
  {
    if n < 10 {
      DigitRoundTrip(n);
      assert NatString(n) == [Digit(n)];
    } else {
      var q, d := n / 10, n % 10;
      NatStringValue(q);
      DigitRoundTrip(d);
      var s := NatString(n);
      assert s == NatString(q) + [Digit(d)];
      assert s[..|s| - 1] == NatString(q);
      assert DigitsValue(s) == 10 * q + d;
    }
  }

  /** A digit reads back as its value. */
  lemma DigitRoundTrip(d: nat)
    requires d < 10
    ensures DigitValue(Digit(d)) == d
  {
  }

  /** Below 100, 1000 and 10000 a number has at most two, three and four
      decimal digits. */
  lemma {:induction false} NatStringLength(n: nat)
    ensures n < 100 ==> |NatString(n)| <= 2
    ensures n < 1000 ==> |NatString(n)| <= 3
    ensures n < 10000 ==> |NatString(n)| <= 4
  {
    if n >= 10 {
      NatStringLength(n / 10);
      assert |NatString(n)| == |NatString(n / 10)| + 1;
    }
  }

  /** `k` zero digits. */
  function Zeros(k: nat): (z: string)
    ensures |z| == k && forall i | 0 <= i < k :: z[i] == '0'
  {
    if k == 0 then "" else Zeros(k - 1) + "0"
  }

  /** Leading zeros do not change the number a digit string spells. */
  lemma {:induction false} LeadingZeros(k: nat, s: string)
    ensures DigitsValue(Zeros(k) + s) == DigitsValue(s)
    decreases |s|, k
  {
    if s == [] {
      if k > 0 {
        assert Zeros(k) + s == Zeros(k);
        assert Zeros(k)[..k - 1] == Zeros(k - 1);
        LeadingZeros(k - 1, s);
        assert Zeros(k - 1) + s == Zeros(k - 1);
      }
    } else {
      var t := Zeros(k) + s;
      assert t[..|t| - 1] == Zeros(k) + s[..|s| - 1];
      LeadingZeros(k, s[..|s| - 1]);
    }
  }

  /** The decimal spelling of `n`, zero-padded on the left to at least
      `width` characters, as Go's time layouts print numeric fields. */
  function Pad(n: nat, width: nat): (s: string)
    ensures |s| == if |NatString(n)| >= width then |NatString(n)| else width
    ensures forall k | 0 <= k < |s| :: '0' <= s[k] <= '9'
    ensures DigitsValue(s) == n
  {
    var d := NatString(n);
    NatStringValue(n);
    if |d| >= width then d
    else
      LeadingZeros(width - |d|, d);
      Zeros(width - |d|) + d
  }

  /** `fmt.Sprintf("%d", n)`. */
  function DecimalString(n: int): (s: string)
    ensures |s| >= 1
    ensures n >= 0 ==> DigitsValue(s) == n
    ensures n < 0 ==> s[0] == '-' && DigitsValue(s[1..]) == -n
  {
    NatStringValue(if n < 0 then -n else n);
    if n < 0 then "-" + NatString(-n) else NatString(n)
  }
}
