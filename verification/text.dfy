/** The string operations the panel scripts rely on, as Python defines them:
    str() of an integer, str.replace with an empty replacement, the first
    field of str.split, os.path.basename and os.path.splitext. */
module Text {
  import opened Results

  predicate IsDigit(c: char) { '0' <= c <= '9' }

  predicate AllDigits(s: string) { forall i :: 0 <= i < |s| ==> IsDigit(s[i]) }

  function Digit(d: nat): (c: char)
    requires d < 10
    ensures IsDigit(c)
  {
    (48 + d) as char
  }

  function DigitValue(c: char): nat
    requires IsDigit(c)
  {
    c as int - 48
  }

  /** str(n) for a non-negative integer: decimal digits, no leading zero. */
  function NatToString(n: nat): (s: string)
    ensures |s| > 0 && AllDigits(s)
    ensures s[0] == '0' ==> n == 0
  {
    if n < 10 then [Digit(n)] else NatToString(n / 10) + [Digit(n % 10)]
  }

  /** str(i) for any integer: a minus sign in front of a negative one. */
  function IntToString(i: int): (s: string)
    ensures |s| > 0
    ensures s[0] == '-' <==> i < 0
    ensures forall k :: 0 < k < |s| ==> IsDigit(s[k])
  {
    if i < 0 then "-" + NatToString(-i) else NatToString(i)
  }

  /** The value a string of decimal digits denotes. */
  function ParseDigits(s: string): nat
    requires AllDigits(s)
  {
    if s == [] then 0 else ParseDigits(s[..|s| - 1]) * 10 + DigitValue(s[|s| - 1])
  }

  lemma {:induction false} ParseNatToString(n: nat)
    ensures ParseDigits(NatToString(n)) == n
  {
    var s := NatToString(n);
    if n >= 10 {
      assert s[..|s| - 1] == NatToString(n / 10);
      ParseNatToString(n / 10);
    }
  }

  /** Distinct numbers print differently, so a number can be read back from a name. */
  lemma NatToStringInjective(a: nat, b: nat)
    ensures NatToString(a) == NatToString(b) ==> a == b
  {
    ParseNatToString(a);
    ParseNatToString(b);
  }

  lemma IntToStringInjective(a: int, b: int)
    ensures IntToString(a) == IntToString(b) ==> a == b
  {
    if IntToString(a) == IntToString(b) {
      assert (a < 0) == (b < 0);
      if a < 0 {
        assert NatToString(-a) == IntToString(a)[1..] == IntToString(b)[1..] == NatToString(-b);
        NatToStringInjective(-a, -b);
      } else {
        NatToStringInjective(a, b);
      }
    }
  }

  /** A run of digits followed by a non-digit is read off unambiguously. */
  lemma DigitRunUnique(p: string, x: string, q: string, y: string)
    requires AllDigits(p) && AllDigits(q)
    requires x != [] && y != [] && !IsDigit(x[0]) && !IsDigit(y[0])
    requires p + x == q + y
    ensures p == q && x == y
  {
    // Every index below |q| (and |p|) holds a digit, and index |p| (and |q|) does not.
    assert forall i :: 0 <= i < |q| ==> IsDigit((p + x)[i]);
    assert !IsDigit((p + x)[|p|]);
    assert forall i :: 0 <= i < |p| ==> IsDigit((q + y)[i]);
    assert !IsDigit((q + y)[|q|]);
    assert p == (p + x)[..|p|] == (q + y)[..|q|] == q;
    assert x == (p + x)[|p|..] == (q + y)[|q|..] == y;
  }

  /** Whether pat occurs in s starting at index i. */
  predicate OccursAt(s: string, i: nat, pat: string) {
    i + |pat| <= |s| && s[i..i + |pat|] == pat
  }

  /** s.replace(pat, ""): scan left to right and drop every non-overlapping
      occurrence of pat. */
  function RemoveAll(s: string, pat: string): (r: string)
    requires |pat| > 0
    ensures |r| <= |s|
    decreases |s|
  {
    if |s| < |pat| then s
    else if s[..|pat|] == pat then RemoveAll(s[|pat|..], pat)
    else [s[0]] + RemoveAll(s[1..], pat)
  }

  lemma RemoveAllAtStart(pat: string, rest: string)
    requires |pat| > 0
    ensures RemoveAll(pat + rest, pat) == RemoveAll(rest, pat)
  {
    assert (pat + rest)[..|pat|] == pat;
    assert (pat + rest)[|pat|..] == rest;
  }

  /** A prefix in which no occurrence of pat starts passes through unchanged. */
  lemma {:induction false} RemoveAllKeepsPrefix(p: string, rest: string, pat: string)
    requires |pat| > 0
    requires forall i :: 0 <= i < |p| ==> !OccursAt(p + rest, i, pat)
    ensures RemoveAll(p + rest, pat) == p + RemoveAll(rest, pat)
  {
    var s := p + rest;
    if p != [] {
      assert !OccursAt(s, 0, pat);
      if |s| < |pat| {
        assert RemoveAll(rest, pat) == rest;
      } else {
        assert s[..|pat|] != pat;
        assert s[1..] == p[1..] + rest;
        forall i | 0 <= i < |p| - 1
          ensures !OccursAt(p[1..] + rest, i, pat)
        {
          assert !OccursAt(s, i + 1, pat);
          if i + |pat| <= |s| - 1 {
            assert (p[1..] + rest)[i..i + |pat|] == s[i + 1..i + 1 + |pat|];
          }
        }
        RemoveAllKeepsPrefix(p[1..], rest, pat);
        assert s[0] == p[0];
        assert [p[0]] + (p[1..] + RemoveAll(rest, pat)) == p + RemoveAll(rest, pat);
      }
    } else {
      assert s == rest;
    }
  }

  /** s.split(sep)[0]: everything before the first sep, or all of s. */
  function Before(s: string, sep: char): (r: string)
    ensures r <= s && sep !in r
    ensures |r| < |s| ==> s[|r|] == sep
  {
    if s == [] || s[0] == sep then [] else [s[0]] + Before(s[1..], sep)
  }

  lemma {:induction false} BeforeSeparator(a: string, sep: char, rest: string)
    requires sep !in a
    ensures Before(a + [sep] + rest, sep) == a
  {
    var s := a + [sep] + rest;
    if a != [] {
      assert s[0] == a[0] && s[1..] == a[1..] + [sep] + rest;
      BeforeSeparator(a[1..], sep, rest);
    }
  }

  /** os.path.basename on a '/'-separated path: the text after the last '/'. */
  function Basename(path: string): (name: string)
    ensures '/' !in name
    ensures |name| <= |path| && path[|path| - |name|..] == name
    ensures |name| < |path| ==> path[|path| - |name| - 1] == '/'
  {
    if path == [] || path[|path| - 1] == '/' then []
    else Basename(path[..|path| - 1]) + [path[|path| - 1]]
  }

  /** The base name of "<dir>/<name>" is name when name has no '/'. */
  lemma {:induction false} BasenameAfterSlash(dir: string, name: string)
    requires '/' !in name
    ensures Basename(dir + "/" + name) == name
  {
    var path := dir + "/" + name;
    if name != [] {
      var init := name[..|name| - 1];
      assert path[|path| - 1] == name[|name| - 1];
      assert path[..|path| - 1] == dir + "/" + init;
      BasenameAfterSlash(dir, init);
      assert init + [name[|name| - 1]] == name;
    }
  }

  /** The position of the last c in s, if any. */
  function LastIndex(s: string, c: char): (r: Option<nat>)
    ensures r.None? ==> c !in s
    ensures r.Some? ==> r.value < |s| && s[r.value] == c && c !in s[r.value + 1..]
  {
    if s == [] then None
    else if s[|s| - 1] == c then Some(|s| - 1)
    else
      var r := LastIndex(s[..|s| - 1], c);
      assert r.Some? ==> s[r.value + 1..] == s[..|s| - 1][r.value + 1..] + [s[|s| - 1]];
      r
  }

  predicate OnlyDots(s: string) { forall i :: 0 <= i < |s| ==> s[i] == '.' }

  /** os.path.splitext(name)[0] for a name without separators: cut at the last
      '.', unless only dots precede it (".bashrc" has no extension). */
  function Stem(name: string): (stem: string)
    ensures stem <= name
    ensures stem == name || (name[|stem|] == '.' && '.' !in name[|stem| + 1..] && !OnlyDots(stem))
  {
    match LastIndex(name, '.')
    case None => name
    case Some(k) => if OnlyDots(name[..k]) then name else name[..k]
  }

  lemma StemOfExtension(base: string, ext: string)
    requires '.' !in ext && !OnlyDots(base)
    ensures Stem(base + "." + ext) == base
  {
    var name := base + "." + ext;
    var r := LastIndex(name, '.');
    assert name[|base|] == '.';
    assert name[|base| + 1..] == ext;
    match r
    case None =>
      assert false;
    case Some(k) =>
      if k != |base| {
        assert false;
      }
      assert name[..k] == base;
  }
}
