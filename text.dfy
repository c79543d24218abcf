/** Text helpers the program takes from Python's runtime: `str.lower`,
    `os.path.splitext` (POSIX flavour), `str.rsplit('.', 1)` and the decimal
    formatting an f-string applies to an `int`, plus `int()` on a real. */
module Text {

  predicate IsUpper(c: char) { 'A' <= c <= 'Z' }

  /** `str.lower` restricted to ASCII letters. */
  function LowerChar(c: char): (r: char)
    ensures IsUpper(c) ==> r as int == c as int + 32
    ensures !IsUpper(c) ==> r == c
    ensures !IsUpper(r)
  {
    if IsUpper(c) then (c as int + 32) as char else c
  }

  function Lower(s: string): (r: string)
    ensures |r| == |s|
  {
    seq(|s|, i requires 0 <= i < |s| => LowerChar(s[i]))
  }

  /** Lower-casing twice is lower-casing once. */
  lemma LowerIdempotent(s: string)
    ensures Lower(Lower(s)) == Lower(s)
  {
    var t := Lower(s);
    forall i | 0 <= i < |s|
      ensures Lower(t)[i] == t[i]
    {
      assert !IsUpper(t[i]);
    }
  }

  /** Lower-casing leaves a string unchanged exactly when it has no upper-case
      ASCII letter. */
  lemma LowerUnchanged(s: string)
    ensures Lower(s) == s <==> forall i :: 0 <= i < |s| ==> !IsUpper(s[i])
  {
    if Lower(s) == s {
      forall i | 0 <= i < |s| ensures !IsUpper(s[i]) {
        assert Lower(s)[i] == LowerChar(s[i]);
      }
    }
    if forall i :: 0 <= i < |s| ==> !IsUpper(s[i]) {
      assert forall i :: 0 <= i < |s| ==> Lower(s)[i] == s[i];
    }
  }

  /** Index of the last occurrence of `c` in `s`, or -1 (`str.rfind`). */
  function LastIndexOf(s: string, c: char): (k: int)
    ensures -1 <= k < |s|
    ensures k >= 0 ==> s[k] == c
    ensures forall j :: k < j < |s| ==> s[j] != c
  {
    if |s| == 0 then -1
    else if s[|s| - 1] == c then |s| - 1
    else LastIndexOf(s[..|s| - 1], c)
  }

  predicate AllDots(s: string) { forall i :: 0 <= i < |s| ==> s[i] == '.' }

  /** `os.path.splitext` on a POSIX path: the extension starts at the last '.'
      of the last path component, unless everything before that '.' in the
      component is dots (so ".bashrc" and "..wav" have no extension). */
  function SplitExt(p: string): (r: (string, string))
    ensures r.0 + r.1 == p
  {
    var sep := LastIndexOf(p, '/');
    var dot := LastIndexOf(p, '.');
    if dot > sep && !AllDots(p[sep + 1..dot]) then (p[..dot], p[dot..]) else (p, [])
  }

  /** `os.path.splitext(p)[0]`. */
  function Root(p: string): string { SplitExt(p).0 }

  /** Characters that may follow the '.' of an extension. */
  predicate ExtensionBody(s: string) { forall i :: 0 <= i < |s| ==> s[i] != '.' && s[i] != '/' }

  /** The three facts `LastIndexOf` promises pin its result down. */
  lemma LastIndexOfUnique(s: string, c: char, k: int)
    requires -1 <= k < |s| && (k >= 0 ==> s[k] == c)
    requires forall j :: k < j < |s| ==> s[j] != c
    ensures LastIndexOf(s, c) == k
  {
  }

  /** The last path component of `s` has a character other than '.': the
      condition under which `splitext` lets a following extension stand. */
  predicate HasNameChar(s: string) {
    !AllDots(s[LastIndexOf(s, '/') + 1..])
  }

  /** What `splitext` splits off is empty or a '.' followed by ordinary
      characters. */
  lemma SplitExtExtension(p: string)
    ensures var ext := SplitExt(p).1; ext == [] || (ext[0] == '.' && ExtensionBody(ext[1..]))
  {
    var sep := LastIndexOf(p, '/');
    var dot := LastIndexOf(p, '.');
    if dot > sep && !AllDots(p[sep + 1..dot]) {
      var ext := p[dot..];
      forall i | 0 <= i < |ext| - 1 ensures ext[1..][i] != '.' && ext[1..][i] != '/' {
        assert ext[1..][i] == p[dot + 1 + i];
      }
    }
  }

  /** When `splitext` splits off an extension, the root keeps a name character. */
  lemma SplitExtRoot(p: string)
    ensures SplitExt(p).1 != [] ==> HasNameChar(SplitExt(p).0)
  {
    var sep := LastIndexOf(p, '/');
    var dot := LastIndexOf(p, '.');
    if dot > sep && !AllDots(p[sep + 1..dot]) {
      var root := p[..dot];
      LastIndexOfUnique(root, '/', sep);
      assert root[sep + 1..] == p[sep + 1..dot];
    }
  }

  /** After appending an extension, the last '.' is the extension's and the
      last '/' is still the name's. */
  lemma LastIndexOfAppend(s: string, ext: string)
    requires |ext| > 0 && ext[0] == '.' && ExtensionBody(ext[1..])
    ensures LastIndexOf(s + ext, '.') == |s|
    ensures LastIndexOf(s + ext, '/') == LastIndexOf(s, '/')
  {
    var p := s + ext;
    var n := |s|;
    forall j | n < j < |p| ensures p[j] != '.' && p[j] != '/' {
      assert p[j] == ext[1..][j - n - 1];
    }
    LastIndexOfUnique(p, '.', n);
    var sep := LastIndexOf(s, '/');
    forall j | sep < j < |p| ensures p[j] != '/' {
      if j < n {
        assert p[j] == s[j];
      }
    }
    LastIndexOfUnique(p, '/', sep);
  }

  /** Appending an extension to a name with a name character is undone by
      `splitext`. */
  lemma SplitExtAppend(s: string, ext: string)
    requires HasNameChar(s)
    requires |ext| > 0 && ext[0] == '.' && ExtensionBody(ext[1..])
    ensures SplitExt(s + ext) == (s, ext)
  {
    var p := s + ext;
    var n := |s|;
    var sep := LastIndexOf(s, '/');
    LastIndexOfAppend(s, ext);
    assert p[sep + 1..n] == s[sep + 1..];
    assert p[..n] == s && p[n..] == ext;
  }

  /** A name whose last character is neither '/' nor '.' has a name character. */
  lemma HasNameCharByLast(s: string)
    requires |s| > 0 && s[|s| - 1] != '/' && s[|s| - 1] != '.'
    ensures HasNameChar(s)
  {
    var sep := LastIndexOf(s, '/');
    assert s[sep + 1..][|s| - 2 - sep] == s[|s| - 1];
  }

  /** The form every output name takes: a base, a tag ending in an ordinary
      character, and an extension. */
  lemma SplitExtTagged(base: string, tag: string, ext: string)
    requires |tag| > 0 && tag[|tag| - 1] != '/' && tag[|tag| - 1] != '.'
    requires |ext| > 0 && ext[0] == '.' && ExtensionBody(ext[1..])
    ensures SplitExt(base + tag + ext) == (base + tag, ext)
  {
    var s := base + tag;
    assert s[|s| - 1] == tag[|tag| - 1];
    HasNameCharByLast(s);
    SplitExtAppend(s, ext);
  }

  /** `c in s` holds exactly when `str.rfind` finds `c`. */
  lemma ContainsIffFound(s: string, c: char)
    ensures c in s <==> LastIndexOf(s, c) >= 0
  {
    if c in s {
      var i :| 0 <= i < |s| && s[i] == c;
      assert LastIndexOf(s, c) >= i;
    }
  }

  /** `p.rsplit('.', 1)[1]`: the suffix after the last '.', when there is one. */
  function AfterLastDot(p: string): (r: string)
    requires LastIndexOf(p, '.') >= 0
    ensures |r| < |p| && p[|p| - |r| - 1] == '.' && r == p[|p| - |r|..]
    ensures '.' !in r
  {
    var k := LastIndexOf(p, '.');
    p[k + 1..]
  }

  /** Lower-casing keeps every '.' where it was, so the last '.' does not move. */
  lemma LowerKeepsLastDot(s: string)
    ensures LastIndexOf(Lower(s), '.') == LastIndexOf(s, '.')
  {
    var low := Lower(s);
    forall j | 0 <= j < |s| ensures (s[j] == '.') == (low[j] == '.') {
      assert low[j] == LowerChar(s[j]);
    }
    LastIndexOfUnique(low, '.', LastIndexOf(s, '.'));
  }

  /** Lower-casing commutes with taking a suffix. */
  lemma LowerSuffix(s: string, i: nat)
    requires i <= |s|
    ensures Lower(s)[i..] == Lower(s[i..])
  {
  }

  predicate IsDigit(c: char) { '0' <= c <= '9' }

  function DigitChar(d: nat): (c: char)
    requires d < 10
    ensures IsDigit(c) && c as int - '0' as int == d
  {
    ('0' as int + d) as char
  }

  /** Decimal digits of `n` as Python prints an `int`: no leading zeros. */
  function NatToString(n: nat): (s: string)
    ensures |s| > 0
    ensures forall i :: 0 <= i < |s| ==> IsDigit(s[i])
    ensures s[0] == '0' ==> n == 0
    decreases n
  {
    if n < 10 then [DigitChar(n)] else NatToString(n / 10) + [DigitChar(n % 10)]
  }

  function DigitValue(c: char): (d: nat)
    requires IsDigit(c)
    ensures d < 10 && DigitChar(d) == c
  {
    c as int - '0' as int
  }

  /** The value a string of decimal digits denotes. */
  function DecimalValue(s: string): nat
    requires forall i :: 0 <= i < |s| ==> IsDigit(s[i])
  {
    if |s| == 0 then 0
    else 10 * DecimalValue(s[..|s| - 1]) + DigitValue(s[|s| - 1])
  }

  /** Reading back the digits gives the number that was printed. */
  lemma {:induction false} DecimalRoundTrip(n: nat)
    ensures DecimalValue(NatToString(n)) == n
    decreases n
  {
    if n >= 10 {
      var s := NatToString(n);
      assert s[..|s| - 1] == NatToString(n / 10);
      DecimalRoundTrip(n / 10);
    }
  }

  /** Decimal text of an `int`, with a leading '-' when negative. */
  function IntToString(i: int): (s: string)
    ensures |s| > 0 && IsDigit(s[|s| - 1])
    ensures i >= 0 <==> s[0] != '-'
    ensures i >= 0 ==> (forall k :: 0 <= k < |s| ==> IsDigit(s[k])) && DecimalValue(s) == i
    ensures i < 0 ==> (forall k :: 1 <= k < |s| ==> IsDigit(s[k])) && DecimalValue(s[1..]) == -i
  {
    if i < 0 then
      var digits := NatToString(-i);
      DecimalRoundTrip(-i);
      assert ("-" + digits)[1..] == digits;
      "-" + digits
    else
      DecimalRoundTrip(i);
      NatToString(i)
  }

  /** `int(x)` for a real `x`: truncation toward zero. */
  function Trunc(x: real): (r: int)
    ensures 0.0 <= x ==> r as real <= x < r as real + 1.0
    ensures x < 0.0 ==> r as real - 1.0 < x <= r as real
  {
    if x >= 0.0 then x.Floor else -((-x).Floor)
  }
}
