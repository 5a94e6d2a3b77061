/**
 * The few pieces of Python string behaviour the controllers rely on:
 * `str(int)`, `os.path.splitext` (POSIX flavour), `rsplit('.', 1)`,
 * `split('.')`, and ASCII `lower()`.
 */
module Text {

  predicate IsDigit(c: char) { '0' <= c <= '9' }

  predicate AllDigits(s: string) { forall i :: 0 <= i < |s| ==> IsDigit(s[i]) }

  /** True when `c` does not occur in `s`. */
  predicate Lacks(s: string, c: char) { forall i :: 0 <= i < |s| ==> s[i] != c }

  function DigitChar(d: nat): (c: char)
    requires d < 10
    ensures IsDigit(c) && c as int - '0' as int == d
  {
    ('0' as int + d) as char
  }

  /** Python's `str(n)` for a non-negative integer: no sign, no leading zero. */
  function NatToString(n: nat): (r: string)
    ensures |r| >= 1 && AllDigits(r)
    ensures |r| > 1 ==> r[0] != '0'
  {
    if n < 10 then [DigitChar(n)] else NatToString(n / 10) + [DigitChar(n % 10)]
  }

  /** Python's `str(i)` for any integer. */
  function IntToString(i: int): (r: string)
    ensures |r| >= 1
    ensures (i < 0) == (r[0] == '-')
  {
    if i < 0 then "-" + NatToString(-i) else NatToString(i)
  }

  /** Value of a decimal digit string (the inverse of `NatToString`). */
  function ParseDigits(s: string): nat
    requires AllDigits(s)
  {
    if s == [] then 0 else ParseDigits(s[..|s| - 1]) * 10 + (s[|s| - 1] as int - '0' as int)
  }

  lemma {:induction false} ParseNatToString(n: nat)
    ensures ParseDigits(NatToString(n)) == n
  {
    if n >= 10 {
      var s := NatToString(n);
      assert s[..|s| - 1] == NatToString(n / 10);
      ParseNatToString(n / 10);
    }
  }

  /** Numbers below 100 print in at most two digits; from 1000 up in at least four, below 10000 in at most four. */
  lemma {:induction false} NatToStringLength(n: nat)
    ensures n < 100 ==> |NatToString(n)| <= 2
    ensures n < 1000 ==> |NatToString(n)| <= 3
    ensures n >= 1000 ==> |NatToString(n)| >= 4
    ensures n < 10000 ==> |NatToString(n)| <= 4
  {
    if n >= 10 {
      NatToStringLength(n / 10);
    }
  }

  /** Distinct numbers print differently. */
  lemma NatToStringInjective(m: nat, n: nat)
    ensures NatToString(m) == NatToString(n) <==> m == n
  {
    ParseNatToString(m);
    ParseNatToString(n);
  }

  /** Python's `s.rfind(c)`: the last index of `c` in `s`, or -1. */
  function LastIndexOf(s: string, c: char): (r: int)
    ensures -1 <= r < |s|
    ensures r >= 0 ==> s[r] == c
    ensures forall k :: r < k < |s| ==> s[k] != c
  {
    if |s| == 0 then -1
    else if s[|s| - 1] == c then |s| - 1
    else LastIndexOf(s[..|s| - 1], c)
  }

  /** The last occurrence is the one with no occurrence after it. */
  lemma LastIndexOfAt(s: string, c: char, i: int)
    requires 0 <= i < |s| && s[i] == c
    requires forall k :: i < k < |s| ==> s[k] != c
    ensures LastIndexOf(s, c) == i
  {
  }

  /** Python's `s.find(c)`, except that a missing `c` gives `|s|`. */
  function IndexOf(s: string, c: char): (r: int)
    ensures 0 <= r <= |s|
    ensures r < |s| ==> s[r] == c
    ensures forall k :: 0 <= k < r ==> s[k] != c
  {
    if |s| == 0 then 0
    else if s[0] == c then 0
    else 1 + IndexOf(s[1..], c)
  }

  /** In `digits + c + rest` the first `c` (not a digit) sits right after the digits. */
  lemma IndexAfterDigits(x: string, c: char, y: string)
    requires AllDigits(x) && !IsDigit(c)
    ensures IndexOf(x + [c] + y, c) == |x|
  {
    var s := x + [c] + y;
    assert s[|x|] == c;
    assert forall k :: 0 <= k < |x| ==> s[k] == x[k];
  }

  /** `filename.rsplit('.', 1)[1]`: the text after the last dot (the source only asks when a dot exists). */
  function AfterLastDot(s: string): (r: string)
    requires '.' in s
    ensures Lacks(r, '.')
    ensures exists i :: 0 <= i < |s| && s[i] == '.' && s == s[..i] + "." + r
  {
    var i := LastIndexOf(s, '.');
    assert s == s[..i] + "." + s[i + 1..];
    s[i + 1..]
  }

  /** `s.split('.')`: the dot-separated fields, at least one. */
  function SplitDots(s: string): (r: seq<string>)
    ensures |r| >= 1
    ensures forall k :: 0 <= k < |r| ==> Lacks(r[k], '.')
    ensures |r| == 1 <==> Lacks(s, '.')
  {
    var i := LastIndexOf(s, '.');
    if i < 0 then [s] else SplitDots(s[..i]) + [s[i + 1..]]
  }

  /** Splitting at the last dot: the fields before it, then the text after it. */
  lemma SplitDotsAt(s: string, i: int)
    requires 0 <= i < |s| && s[i] == '.'
    requires forall k :: i < k < |s| ==> s[k] != '.'
    ensures SplitDots(s) == SplitDots(s[..i]) + [s[i + 1..]]
  {
    LastIndexOfAt(s, '.', i);
  }

  /** Appending a dot and a field without dots appends that field. */
  lemma SplitDotsAppend(front: string, field: string)
    requires Lacks(field, '.')
    ensures SplitDots(front + "." + field) == SplitDots(front) + [field]
  {
    var s := front + "." + field;
    forall k | |front| < k < |s| ensures s[k] != '.' {
      assert s[k] == field[k - |front| - 1];
    }
    SplitDotsAt(s, |front|);
    assert s[..|front|] == front && s[|front| + 1..] == field;
  }

  /** A string without dots is a single field. */
  lemma SplitDotsNone(s: string)
    requires Lacks(s, '.')
    ensures SplitDots(s) == [s]
  {
  }

  /** ASCII lower-casing, the part of `str.lower()` file extensions use. */
  function Lower(s: string): (r: string)
    ensures |r| == |s|
    ensures forall i :: 0 <= i < |s| ==> r[i] == LowerChar(s[i])
  {
    if s == [] then [] else Lower(s[..|s| - 1]) + [LowerChar(s[|s| - 1])]
  }

  function LowerChar(c: char): char
  {
    if 'A' <= c <= 'Z' then (c as int + 32) as char else c
  }

  /** Left-pads with zeros to at least `width` characters, as `%02d` / `%04d` do. */
  function ZeroPad(s: string, width: nat): (r: string)
    ensures |r| == if |s| < width then width else |s|
    ensures r[|r| - |s|..] == s
    ensures forall k :: 0 <= k < |r| - |s| ==> r[k] == '0'
  {
    if |s| < width then
      var r := seq(width - |s|, k => '0') + s;
      assert r[|r| - |s|..] == s;
      r
    else s
  }

  // ------------------------------------------------------------------
  // os.path.splitext (posixpath): the extension starts at the last dot
  // of the last path component, and leading dots of that component do
  // not start an extension.

  /** An extension as splitext returns it: empty, or a dot followed by no dot and no slash. */
  predicate IsExt(e: string)
  {
    e == "" || (e[0] == '.' && forall k :: 1 <= k < |e| ==> e[k] != '.' && e[k] != '/')
  }

  /** Position `i` is where splitext cuts `p`. */
  predicate ExtStart(p: string, i: int)
  {
    && 0 <= i < |p| && p[i] == '.'
    && (forall k :: i < k < |p| ==> p[k] != '.' && p[k] != '/')
    && (exists k :: 0 <= k < i && p[k] != '.' && p[k] != '/' && forall j :: k < j < i ==> p[j] != '/')
  }

  predicate HasNonDot(p: string, lo: int, hi: int)
    requires 0 <= lo <= hi <= |p|
  {
    exists k :: lo <= k < hi && p[k] != '.'
  }

  function SplitExt(p: string): (r: (string, string))
    ensures r.0 + r.1 == p
    ensures IsExt(r.1)
    ensures r.1 != "" ==> ExtStart(p, |r.0|)
    ensures r.1 == "" ==> forall i :: !ExtStart(p, i)
  {
    var sep := LastIndexOf(p, '/');
    var dot := LastIndexOf(p, '.');
    if dot > sep && HasNonDot(p, sep + 1, dot) then
      assert ExtStart(p, dot);
      (p[..dot], p[dot..])
    else
      (p, "")
  }

  lemma ExtStartUnique(p: string, i: int, j: int)
    requires ExtStart(p, i) && ExtStart(p, j)
    ensures i == j
  {
  }

  /** Inserting `tag` between stem and extension: `splitext(n)[0] + tag + splitext(n)[1]`. */
  function Suffixed(name: string, tag: string): string
  {
    SplitExt(name).0 + tag + SplitExt(name).1
  }

  /** A stem without dots or slashes followed by an extension splits back into the two. */
  lemma SplitStemExt(stem: string, ext: string)
    requires stem != [] && Lacks(stem, '.') && Lacks(stem, '/')
    requires IsExt(ext)
    ensures SplitExt(stem + ext) == (stem, ext)
  {
    var p := stem + ext;
    var r := SplitExt(p);
    if ext == "" {
      assert p == stem;
    } else {
      assert ExtStart(p, |stem|) by {
        assert p[0] == stem[0];
        assert forall j :: 0 < j < |stem| ==> p[j] == stem[j];
      }
      if r.1 != "" {
        ExtStartUnique(p, |r.0|, |stem|);
        assert r.0 == p[..|stem|] == stem;
      }
    }
  }

  /** A slash-free stem that does not start with a dot, then a dot and a field without dots or slashes, splits at that dot. */
  lemma SplitExtAppend(front: string, field: string)
    requires front != [] && front[0] != '.' && Lacks(front, '/')
    requires Lacks(field, '.') && Lacks(field, '/')
    ensures SplitExt(front + "." + field) == (front, "." + field)
  {
    var p := front + "." + field;
    var i := |front|;
    forall k | i < k < |p| ensures p[k] != '.' && p[k] != '/' {
      assert p[k] == field[k - i - 1];
    }
    forall j | 0 <= j < i ensures p[j] != '/' {
      assert p[j] == front[j];
    }
    assert p[0] == front[0] && p[i] == '.';
    assert ExtStart(p, i);
    var r := SplitExt(p);
    assert r.1 != "";
    ExtStartUnique(p, |r.0|, i);
    assert r.0 == p[..i] == front;
    assert r.1 == p[i..] == "." + field;
  }

  /** Tagging a name keeps its extension and lengthens its stem by the tag. */
  lemma SuffixedSplit(name: string, tag: string)
    requires Lacks(tag, '.') && Lacks(tag, '/')
    ensures SplitExt(Suffixed(name, tag)) == (SplitExt(name).0 + tag, SplitExt(name).1)
  {
    if SplitExt(name).1 != "" {
      SuffixedSplitWithExt(name, tag);
    } else {
      SuffixedSplitNoExt(name, tag);
    }
  }

  lemma SuffixedSplitWithExt(name: string, tag: string)
    requires Lacks(tag, '.') && Lacks(tag, '/')
    requires SplitExt(name).1 != ""
    ensures SplitExt(Suffixed(name, tag)) == (SplitExt(name).0 + tag, SplitExt(name).1)
  {
    var (root, ext) := SplitExt(name);
    var p := root + tag + ext;
    var i := |root|;
    assert ExtStart(name, i);
    var k :| 0 <= k < i && name[k] != '.' && name[k] != '/' && forall j :: k < j < i ==> name[j] != '/';
    assert p[k] == name[k];
    assert forall j :: k < j < i + |tag| ==> p[j] != '/' by {
      forall j | k < j < i + |tag| ensures p[j] != '/' {
        if j < i { assert p[j] == name[j]; } else { assert p[j] == tag[j - i]; }
      }
    }
    assert forall m :: i + |tag| <= m < |p| ==> p[m] == name[m - |tag|];
    assert ExtStart(p, i + |tag|);
    var r := SplitExt(p);
    if r.1 != "" {
      ExtStartUnique(p, |r.0|, i + |tag|);
      assert r.0 == p[..i + |tag|] == root + tag;
    }
  }

  lemma SuffixedSplitNoExt(name: string, tag: string)
    requires Lacks(tag, '.') && Lacks(tag, '/')
    requires SplitExt(name).1 == ""
    ensures SplitExt(Suffixed(name, tag)) == (name + tag, "")
  {
    var p := name + tag;
    assert Suffixed(name, tag) == p;
    var r := SplitExt(p);
    if r.1 != "" {
      var j := |r.0|;
      assert ExtStart(p, j);
      assert j < |name|;
      var k :| 0 <= k < j && p[k] != '.' && p[k] != '/' && forall m :: k < m < j ==> p[m] != '/';
      assert forall m :: j < m < |name| ==> name[m] == p[m];
      assert name[k] == p[k] && forall m :: k < m < j ==> name[m] == p[m];
      assert ExtStart(name, j);
      assert false;
    }
  }
}
