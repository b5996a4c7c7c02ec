/** Character-level helpers shared by the date parser, the ISO 8601 renderer, the
    spreadsheet sheet lookup and the attribute-name splitter: runs of decimal
    digits, zero padding, ASCII case folding, and the splitting rule that
    java.lang.String.split applies to a one-character literal pattern. */
module Text {

  predicate IsDigit(c: char) {
    '0' <= c <= '9'
  }

  predicate AllDigits(s: string) {
    forall i :: 0 <= i < |s| ==> IsDigit(s[i])
  }

  function DigitChar(d: nat): (c: char)
    requires d < 10
    ensures IsDigit(c)
  {
    ('0' as int + d) as char
  }

  function DigitValue(c: char): (d: nat)
    requires IsDigit(c)
    ensures d < 10
    ensures DigitChar(d) == c
  {
    c as int - '0' as int
  }

  /** The number denoted by a string of decimal digits, most significant first;
      the empty string denotes 0. */
  function NumberOf(s: string): nat
    requires AllDigits(s)
  {
    if |s| == 0 then 0 else NumberOf(s[..|s| - 1]) * 10 + DigitValue(s[|s| - 1])
  }

  /** Length of the longest prefix of `s` made only of decimal digits. */
  function DigitRun(s: string): (n: nat)
    ensures n <= |s|
    ensures AllDigits(s[..n])
    ensures n < |s| ==> !IsDigit(s[n])
  {
    if |s| == 0 || !IsDigit(s[0]) then 0 else 1 + DigitRun(s[1..])
  }

  /** The space and tab characters a date parser skips before a numeric field. */
  predicate IsBlank(c: char) {
    c == ' ' || c == '\t'
  }

  predicate AllBlank(s: string) {
    forall i :: 0 <= i < |s| ==> IsBlank(s[i])
  }

  /** Length of the longest prefix of `s` made only of spaces and tabs. */
  function BlankRun(s: string): (n: nat)
    ensures n <= |s|
    ensures AllBlank(s[..n])
    ensures n < |s| ==> !IsBlank(s[n])
  {
    if |s| == 0 || !IsBlank(s[0]) then 0 else 1 + BlankRun(s[1..])
  }

  /** A blank run stops exactly where the blanks stop. */
  lemma {:induction false} BlankRunStopsAt(w: string, rest: string)
    requires AllBlank(w)
    requires |rest| > 0 ==> !IsBlank(rest[0])
    ensures BlankRun(w + rest) == |w|
  {
    if |w| > 0 {
      assert (w + rest)[1..] == w[1..] + rest;
      BlankRunStopsAt(w[1..], rest);
    }
  }

  /** The shortest decimal rendering of `n`. */
  function ShowNat(n: nat): (s: string)
    ensures 1 <= |s|
    ensures AllDigits(s)
  {
    if n < 10 then [DigitChar(n)] else ShowNat(n / 10) + [DigitChar(n % 10)]
  }

  function Zeros(k: nat): (s: string)
    ensures |s| == k
    ensures AllDigits(s)
  {
    seq(k, i => '0')
  }

  /** `s` left-padded with '0' up to `width` characters; never truncated. */
  function PadLeft(s: string, width: nat): string {
    if |s| < width then Zeros(width - |s|) + s else s
  }

  /** The rendering of `n` with at least `width` digits, as a zero-padding
      number formatter produces it. */
  function ShowPadded(n: nat, width: nat): (s: string)
    ensures AllDigits(s)
    ensures width <= |s|
    ensures 1 <= |s|
  {
    PadLeft(ShowNat(n), width)
  }

  function Pow10(k: nat): (p: nat)
    ensures p >= 1
  {
    if k == 0 then 1 else 10 * Pow10(k - 1)
  }

  /** A number below 10^width is rendered in exactly `width` padded digits. */
  lemma {:induction false} ShowPaddedWidth(n: nat, width: nat)
    requires 1 <= width && n < Pow10(width)
    ensures |ShowPadded(n, width)| == width
  {
    ShowNatShort(n, width);
  }

  lemma {:induction false} ShowNatShort(n: nat, width: nat)
    requires 1 <= width && n < Pow10(width)
    ensures |ShowNat(n)| <= width
  {
    if n >= 10 {
      ShowNatShort(n / 10, width - 1);
    }
  }

  lemma {:induction false} NumberOfShowNat(n: nat)
    ensures NumberOf(ShowNat(n)) == n
  {
    if n >= 10 {
      var s := ShowNat(n);
      assert s[..|s| - 1] == ShowNat(n / 10);
      NumberOfShowNat(n / 10);
    }
  }

  lemma {:induction false} NumberOfZeros(k: nat)
    ensures NumberOf(Zeros(k)) == 0
  {
    if k > 0 {
      assert Zeros(k)[..k - 1] == Zeros(k - 1);
      NumberOfZeros(k - 1);
    }
  }

  lemma {:induction false} NumberOfIgnoresLeadingZeros(k: nat, s: string)
    requires AllDigits(s)
    ensures AllDigits(Zeros(k) + s)
    ensures NumberOf(Zeros(k) + s) == NumberOf(s)
  {
    var t := Zeros(k) + s;
    if |s| == 0 {
      assert t == Zeros(k);
      NumberOfZeros(k);
    } else {
      assert t[..|t| - 1] == Zeros(k) + s[..|s| - 1];
      NumberOfIgnoresLeadingZeros(k, s[..|s| - 1]);
    }
  }

  /** Reading back a zero-padded rendering gives the number that was rendered. */
  lemma NumberOfShowPadded(n: nat, width: nat)
    ensures NumberOf(ShowPadded(n, width)) == n
  {
    NumberOfShowNat(n);
    if |ShowNat(n)| < width {
      NumberOfIgnoresLeadingZeros(width - |ShowNat(n)|, ShowNat(n));
    }
  }

  /** A digit run stops exactly where the digits stop. */
  lemma {:induction false} DigitRunStopsAt(a: string, rest: string)
    requires AllDigits(a)
    requires |rest| > 0 ==> !IsDigit(rest[0])
    ensures DigitRun(a + rest) == |a|
  {
    if |a| > 0 {
      assert (a + rest)[1..] == a[1..] + rest;
      DigitRunStopsAt(a[1..], rest);
    }
  }

  function LowerChar(c: char): (l: char)
    ensures 'A' <= c <= 'Z' ==> l as int == c as int + 32
    ensures !('A' <= c <= 'Z') ==> l == c
  {
    if 'A' <= c <= 'Z' then (c as int + 32) as char else c
  }

  /** ASCII lower-casing, the case mapping Java applies to locale language codes. */
  function Lower(s: string): (r: string)
    ensures |r| == |s|
    ensures forall i :: 0 <= i < |s| ==> r[i] == LowerChar(s[i])
  {
    seq(|s|, i requires 0 <= i < |s| => LowerChar(s[i]))
  }

  /** Equality up to ASCII letter case. */
  predicate SameIgnoringCase(a: string, b: string) {
    Lower(a) == Lower(b)
  }

  /** Index of the first occurrence of `c` in `s`. */
  function IndexOf(s: string, c: char): (i: nat)
    requires c in s
    ensures i < |s| && s[i] == c
    ensures c !in s[..i]
  {
    if s[0] == c then 0 else assert c in s[1..]; 1 + IndexOf(s[1..], c)
  }

  /** The text before the first `sep`, or all of `s` when there is none. */
  function BeforeFirst(s: string, sep: char): (r: string)
    ensures sep !in r
    ensures r <= s
  {
    if sep in s then s[..IndexOf(s, sep)] else s
  }

  /** The text after the first `sep`; requires that there is one. */
  function AfterFirst(s: string, sep: char): (r: string)
    requires sep in s
    ensures s == BeforeFirst(s, sep) + [sep] + r
  {
    s[IndexOf(s, sep) + 1..]
  }

  /** Every piece of `s` between occurrences of `sep`, empty pieces included;
      there is always one more piece than there are separators. */
  function Pieces(s: string, sep: char): (r: seq<string>)
    ensures |r| >= 1
    ensures r[0] == BeforeFirst(s, sep)
    decreases |s|
  {
    if sep !in s then [s] else [BeforeFirst(s, sep)] + Pieces(AfterFirst(s, sep), sep)
  }

  /** `parts` without its trailing empty strings. */
  function DropTrailingEmpty(parts: seq<string>): (r: seq<string>)
    ensures |r| <= |parts|
    ensures r == parts[..|r|]
    ensures |r| > 0 ==> r[|r| - 1] != []
    ensures forall k :: |r| <= k < |parts| ==> parts[k] == []
  {
    if |parts| == 0 || parts[|parts| - 1] != [] then parts
    else DropTrailingEmpty(parts[..|parts| - 1])
  }

  /** java.lang.String.split(sep) for a one-character literal `sep`: a string
      without the separator splits into itself (even when empty); otherwise the
      pieces between separators, with trailing empty pieces removed. */
  function Split(s: string, sep: char): seq<string> {
    if sep !in s then [s] else DropTrailingEmpty(Pieces(s, sep))
  }

  /** Whether some character of `s` is not `sep`. */
  predicate HasOther(s: string, sep: char) {
    exists i :: 0 <= i < |s| && s[i] != sep
  }

  predicate AllEmpty(parts: seq<string>) {
    forall k :: 0 <= k < |parts| ==> parts[k] == []
  }

  lemma {:induction false} PiecesOfSeparators(s: string, sep: char)
    requires !HasOther(s, sep)
    ensures AllEmpty(Pieces(s, sep))
    decreases |s|
  {
    if |s| > 0 {
      assert s[0] == sep;
      assert IndexOf(s, sep) == 0;
      var a := AfterFirst(s, sep);
      assert a == s[1..];
      assert forall j :: 0 <= j < |a| ==> a[j] == s[j + 1];
      PiecesOfSeparators(a, sep);
      assert Pieces(s, sep) == [BeforeFirst(s, sep)] + Pieces(a, sep);
    }
  }

  lemma {:induction false} PiecesOfOther(s: string, sep: char)
    requires HasOther(s, sep)
    ensures !AllEmpty(Pieces(s, sep))
    decreases |s|
  {
    if sep in s && BeforeFirst(s, sep) == [] {
      var i :| 0 <= i < |s| && s[i] != sep;
      var x := IndexOf(s, sep);
      assert x == 0;
      var a := AfterFirst(s, sep);
      assert a == s[1..];
      assert a[i - 1] == s[i];
      PiecesOfOther(a, sep);
      var q := Pieces(a, sep);
      var k :| 0 <= k < |q| && q[k] != [];
      assert Pieces(s, sep)[k + 1] == q[k];
    }
  }

  /** Some piece is non-empty exactly when some character is not a separator. */
  lemma PiecesNonEmpty(s: string, sep: char)
    ensures !AllEmpty(Pieces(s, sep)) <==> HasOther(s, sep)
  {
    if HasOther(s, sep) {
      PiecesOfOther(s, sep);
    } else {
      PiecesOfSeparators(s, sep);
    }
  }

  /** `Split` yields no piece at all exactly for a non-empty run of separators. */
  lemma SplitIsEmpty(s: string, sep: char)
    ensures |Split(s, sep)| == 0 <==> (|s| > 0 && !HasOther(s, sep))
  {
    if sep in s {
      PiecesNonEmpty(s, sep);
      var p := Pieces(s, sep);
      var r := DropTrailingEmpty(p);
      if |r| == 0 {
        assert forall k :: 0 <= k < |p| ==> p[k] == [];
      } else {
        assert r[|r| - 1] == p[|r| - 1];
      }
    } else if |s| > 0 {
      assert s[0] != sep;
    }
  }

  /** The first piece of a split, when there is one, is the text before the first separator. */
  lemma SplitHead(s: string, sep: char)
    requires |Split(s, sep)| > 0
    ensures Split(s, sep)[0] == BeforeFirst(s, sep)
  {
  }

  /** Dropping the trailing empty pieces of `[x] + q` leaves a second piece
      exactly when some piece of `q` is non-empty, and that piece is `q[0]`. */
  lemma DropAfterHead(x: string, q: seq<string>)
    ensures |DropTrailingEmpty([x] + q)| > 1 <==> !AllEmpty(q)
    ensures |DropTrailingEmpty([x] + q)| > 1 ==> DropTrailingEmpty([x] + q)[1] == q[0]
  {
    var p := [x] + q;
    var r := DropTrailingEmpty(p);
    if !AllEmpty(q) {
      var k :| 0 <= k < |q| && q[k] != [];
      assert p[k + 1] == q[k];
    }
    if |r| > 1 {
      assert r[|r| - 1] == p[|r| - 1] == q[|r| - 2];
      assert r[1] == p[1] == q[0];
    }
  }

  /** A split has a second piece exactly when something other than a separator
      follows the first separator, and that piece is the text between the first
      and second separators. */
  lemma SplitSecond(s: string, sep: char)
    ensures |Split(s, sep)| > 1 <==> (sep in s && HasOther(AfterFirst(s, sep), sep))
    ensures |Split(s, sep)| > 1 ==> Split(s, sep)[1] == BeforeFirst(AfterFirst(s, sep), sep)
  {
    if sep in s {
      var a := AfterFirst(s, sep);
      assert Pieces(s, sep) == [BeforeFirst(s, sep)] + Pieces(a, sep);
      PiecesNonEmpty(a, sep);
      DropAfterHead(BeforeFirst(s, sep), Pieces(a, sep));
    }
  }
}
