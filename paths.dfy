/** File names and relative paths as the scanner sees them: a relative path is
    the sequence of its components below the working directory, and a file
    name splits into a stem and a suffix the way Python's pathlib does. */
module Paths {

  /** Components of a path relative to the working directory (`a/b/c.jpg` is ["a", "b", "c.jpg"]). */
  type RelPath = seq<string>

  /** `Path(p).name`: the last component. */
  function Name(p: RelPath): string
    requires |p| > 0
  {
    p[|p| - 1]
  }

  /** `Path(p).parent`: all components but the last. */
  function Parent(p: RelPath): RelPath
    requires |p| > 0
  {
    p[..|p| - 1]
  }

  /** `s.rfind(c)`: the last index of `c` in `s`, or -1. */
  function LastIndexOf(s: string, c: char): (r: int)
    ensures -1 <= r < |s|
    ensures r >= 0 ==> s[r] == c && forall j :: r < j < |s| ==> s[j] != c
    ensures r == -1 ==> forall j :: 0 <= j < |s| ==> s[j] != c
  {
    if |s| == 0 then -1
    else if s[|s| - 1] == c then |s| - 1
    else LastIndexOf(s[..|s| - 1], c)
  }

  /** Position of the dot that starts the suffix: pathlib only counts a last
      dot that is neither the first nor the last character of the name. */
  function SuffixDot(name: string): (r: int)
  {
    var i := LastIndexOf(name, '.');
    if 0 < i < |name| - 1 then i else -1
  }

  /** `Path(name).suffix`. */
  function Suffix(name: string): string
  {
    var i := SuffixDot(name);
    if i > 0 then name[i..] else ""
  }

  /** `Path(name).stem`. */
  function Stem(name: string): string
  {
    var i := SuffixDot(name);
    if i > 0 then name[..i] else name
  }

  /** The stem and the suffix put back together give the name; the suffix is
      empty or a dot followed by at least one character and no other dot. */
  lemma StemSuffixSplit(name: string)
    ensures Stem(name) + Suffix(name) == name
    ensures Suffix(name) == "" || (|Suffix(name)| >= 2 && Suffix(name)[0] == '.' && '.' !in Suffix(name)[1..])
    ensures Suffix(name) != "" ==> |Stem(name)| > 0
  {
    var i := SuffixDot(name);
    if i > 0 {
      assert name[..i] + name[i..] == name;
      var suf := name[i..];
      forall j | 0 <= j < |suf[1..]| ensures suf[1..][j] != '.' {
        assert suf[1..][j] == name[i + 1 + j];
      }
    }
  }

  /** ASCII lower-casing of one character. */
  function LowerChar(c: char): char
  {
    if 'A' <= c <= 'Z' then (c as int + 32) as char else c
  }

  /** `s.lower()` on ASCII letters. */
  function Lower(s: string): (r: string)
    ensures |r| == |s|
    ensures forall i :: 0 <= i < |s| ==> r[i] == LowerChar(s[i])
  {
    seq(|s|, i requires 0 <= i < |s| => LowerChar(s[i]))
  }

  /** Lower-casing leaves no capital letter, changes nothing else, moves each
      capital to its small letter, and so does nothing the second time. */
  lemma LowerSpec(s: string)
    ensures |Lower(s)| == |s|
    ensures forall i :: 0 <= i < |s| ==> !('A' <= Lower(s)[i] <= 'Z')
    ensures forall i :: 0 <= i < |s| && !('A' <= s[i] <= 'Z') ==> Lower(s)[i] == s[i]
    ensures forall i :: 0 <= i < |s| && 'A' <= s[i] <= 'Z' ==> 'a' <= Lower(s)[i] <= 'z' && Lower(s)[i] as int == s[i] as int + 32
    ensures Lower(Lower(s)) == Lower(s)
  {
  }

  function DigitChar(d: nat): char
    requires d < 10
  {
    "0123456789"[d]
  }

  function DigitValue(c: char): nat
  {
    if '0' <= c <= '9' then c as int - '0' as int else 0
  }

  /** `str(n)` for a natural number: decimal digits without leading zeros. */
  function Decimal(n: nat): (r: string)
    ensures |r| > 0
    ensures forall i :: 0 <= i < |r| ==> '0' <= r[i] <= '9'
    decreases n
  {
    if n < 10 then [DigitChar(n)] else Decimal(n / 10) + [DigitChar(n % 10)]
  }

  /** `int(s)` on a string of decimal digits. */
  function ParseDecimal(s: string): nat
    decreases |s|
  {
    if |s| == 0 then 0 else 10 * ParseDecimal(s[..|s| - 1]) + DigitValue(s[|s| - 1])
  }

  /** Reading back the decimal rendering of a number gives the number. */
  lemma {:induction false} DecimalRoundTrip(n: nat)
    ensures ParseDecimal(Decimal(n)) == n
    decreases n
  {
    var s := Decimal(n);
    if n >= 10 {
      DecimalRoundTrip(n / 10);
      assert s[..|s| - 1] == Decimal(n / 10);
    }
  }

  /** Different numbers render as different strings. */
  lemma DecimalInjective(m: nat, n: nat)
    requires Decimal(m) == Decimal(n)
    ensures m == n
  {
    DecimalRoundTrip(m);
    DecimalRoundTrip(n);
  }
}
