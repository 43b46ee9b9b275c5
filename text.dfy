/** String operations of Python's `str` that the modelled code relies on. */
module Text {
  import opened Wrappers

  /** Python's `s[:n]` for any integer `n`: a negative bound counts from the end. */
  function SliceTo<T>(s: seq<T>, n: int): (r: seq<T>)
    ensures r <= s
    ensures n >= 0 ==> |r| == if n <= |s| then n else |s|
    ensures n < 0 ==> |r| == if |s| + n >= 0 then |s| + n else 0
  {
    if n >= 0 then (if n <= |s| then s[..n] else s)
    else if |s| + n >= 0 then s[..|s| + n]
    else []
  }

  /** The characters for which Python's `str.isspace()` holds, which `str.strip()` removes. */
  predicate IsSpace(c: char) {
    || c == ' ' || c == '\t' || c == '\n' || c == '\r' || c == '\U{0B}' || c == '\U{0C}'
    || c == '\U{1C}' || c == '\U{1D}' || c == '\U{1E}' || c == '\U{1F}'
    || c == '\U{85}' || c == '\U{A0}' || c == '\U{1680}'
    || ('\U{2000}' <= c <= '\U{200A}')
    || c == '\U{2028}' || c == '\U{2029}' || c == '\U{202F}' || c == '\U{205F}' || c == '\U{3000}'
  }

  /** The end of the whitespace run starting at `i`. */
  function SpaceRunEnd(s: string, i: nat): (j: nat)
    requires i <= |s|
    decreases |s| - i
    ensures i <= j <= |s|
    ensures forall k :: i <= k < j ==> IsSpace(s[k])
    ensures j < |s| ==> !IsSpace(s[j])
  {
    if i < |s| && IsSpace(s[i]) then SpaceRunEnd(s, i + 1) else i
  }

  /** The start of the whitespace run ending at `j`, going no lower than `lo`. */
  function SpaceRunStart(s: string, lo: nat, j: nat): (i: nat)
    requires lo <= j <= |s|
    decreases j - lo
    ensures lo <= i <= j
    ensures forall k :: i <= k < j ==> IsSpace(s[k])
    ensures i > lo ==> !IsSpace(s[i - 1])
  {
    if j > lo && IsSpace(s[j - 1]) then SpaceRunStart(s, lo, j - 1) else j
  }

  /** The number of leading whitespace characters of `s`. */
  function LeadingSpace(s: string): (n: nat)
    ensures n <= |s|
  {
    SpaceRunEnd(s, 0)
  }

  /** `s.strip()`: the part of `s` between its leading and its trailing whitespace. */
  function Strip(s: string): (r: string)
    ensures LeadingSpace(s) + |r| <= |s|
    ensures r == s[LeadingSpace(s)..LeadingSpace(s) + |r|]
    ensures r != [] ==> !IsSpace(r[0]) && !IsSpace(r[|r| - 1])
    ensures forall c :: c in r ==> c in s
  {
    var a := LeadingSpace(s);
    var b := SpaceRunStart(s, a, |s|);
    SliceChars(s, a, b);
    s[a..b]
  }

  /** Only whitespace lies around the stripped part. */
  lemma StripSpaces(s: string)
    ensures forall k :: 0 <= k < LeadingSpace(s) ==> IsSpace(s[k])
    ensures forall k :: LeadingSpace(s) + |Strip(s)| <= k < |s| ==> IsSpace(s[k])
  {
  }

  lemma SliceChars(s: string, i: nat, j: nat)
    requires i <= j <= |s|
    ensures forall c :: c in s[i..j] ==> c in s
  {
    forall c | c in s[i..j] ensures c in s {
      var k :| 0 <= k < j - i && s[i..j][k] == c;
      assert s[i + k] == c;
    }
  }

  /** Stripping twice is stripping once. */
  lemma {:induction false} StripIdempotent(s: string)
    ensures Strip(Strip(s)) == Strip(s)
  {
    var t := Strip(s);
    assert LeadingSpace(t) == 0;
    assert SpaceRunStart(t, 0, |t|) == |t|;
  }

  predicate StartsWith(s: string, prefix: string) {
    prefix <= s
  }

  predicate EndsWith(s: string, suffix: string) {
    |suffix| <= |s| && s[|s| - |suffix|..] == suffix
  }

  /** `t` occurs in `s` starting at index `k`. */
  predicate OccursAt(s: string, t: string, k: int) {
    0 <= k && k + |t| <= |s| && s[k..k + |t|] == t
  }

  /** The first index at or after `i` where `t` occurs in `s` (Python's `s.find(t, i)`). */
  function FindFrom(s: string, t: string, i: nat): (r: Option<nat>)
    decreases |s| - i
    ensures r.Some? ==> i <= r.value && OccursAt(s, t, r.value)
  {
    if i + |t| > |s| then None
    else if s[i..i + |t|] == t then Some(i)
    else FindFrom(s, t, i + 1)
  }

  /** `FindFrom` finds the first occurrence, and finds none only when there is none. */
  lemma {:induction false} FindFromFirst(s: string, t: string, i: nat)
    decreases |s| - i
    ensures FindFrom(s, t, i).Some? ==> forall k :: i <= k < FindFrom(s, t, i).value ==> !OccursAt(s, t, k)
    ensures FindFrom(s, t, i).None? ==> forall k :: i <= k ==> !OccursAt(s, t, k)
  {
    if i + |t| <= |s| && s[i..i + |t|] != t {
      FindFromFirst(s, t, i + 1);
    }
  }

  /** Python's `t in s` on strings. */
  predicate Contains(s: string, t: string) {
    FindFrom(s, t, 0).Some?
  }

  /** Where the last piece of `s.split(sep)` begins, scanning for separators from index `i`. */
  function LastPieceStart(s: string, sep: string, i: nat): (j: nat)
    requires sep != [] && i <= |s|
    decreases |s| - i
    ensures i <= j <= |s|
  {
    match FindFrom(s, sep, i)
    case None => i
    case Some(k) => LastPieceStart(s, sep, k + |sep|)
  }

  /** Python's `s.split(sep)[-1]`: the piece after the last separator that a left-to-right split finds. */
  function SplitLast(s: string, sep: string): (r: string)
    requires sep != []
    ensures |r| <= |s| && r == s[|s| - |r|..]
  {
    s[LastPieceStart(s, sep, 0)..]
  }

  /** `sep` sits in `s` immediately before its suffix `r`. */
  predicate PrecededBy(s: string, r: string, sep: string) {
    |r| + |sep| <= |s| && s[|s| - |r| - |sep|..|s| - |r|] == sep
  }

  /** No separator occurs at or after the start of the last piece; one ends right before it unless the
      scan found none at all. */
  lemma LastPieceStartSpec(s: string, sep: string, i: nat)
    requires sep != [] && i <= |s|
    ensures FindFrom(s, sep, LastPieceStart(s, sep, i)).None?
    ensures FindFrom(s, sep, i).None? ==> LastPieceStart(s, sep, i) == i
    ensures FindFrom(s, sep, i).Some? ==> OccursAt(s, sep, LastPieceStart(s, sep, i) - |sep|)
  {
    LastPieceClear(s, sep, i);
    LastPieceAfterSeparator(s, sep, i);
  }

  lemma {:induction false} LastPieceClear(s: string, sep: string, i: nat)
    requires sep != [] && i <= |s|
    decreases |s| - i
    ensures FindFrom(s, sep, LastPieceStart(s, sep, i)).None?
  {
    var r := FindFrom(s, sep, i);
    if r.Some? {
      LastPieceClear(s, sep, r.value + |sep|);
    }
  }

  lemma {:induction false} LastPieceAfterSeparator(s: string, sep: string, i: nat)
    requires sep != [] && i <= |s|
    decreases |s| - i
    ensures FindFrom(s, sep, i).Some? ==> OccursAt(s, sep, LastPieceStart(s, sep, i) - |sep|)
  {
    match FindFrom(s, sep, i)
    case None =>
    case Some(k) =>
      var j := LastPieceStart(s, sep, k + |sep|);
      assert LastPieceStart(s, sep, i) == j;
      match FindFrom(s, sep, k + |sep|)
      case None =>
        assert j == k + |sep|;
      case Some(_) =>
        LastPieceAfterSeparator(s, sep, k + |sep|);
  }

  /** The last piece of a split holds no separator. */
  lemma SplitLastHasNoSeparator(s: string, sep: string)
    requires sep != []
    ensures !Contains(SplitLast(s, sep), sep)
  {
    var j := LastPieceStart(s, sep, 0);
    var r := s[j..];
    LastPieceStartSpec(s, sep, 0);
    FindFromFirst(s, sep, j);
    forall m | OccursAt(r, sep, m) ensures OccursAt(s, sep, j + m) {
      assert s[j + m..j + m + |sep|] == r[m..m + |sep|];
    }
  }

  /** A separator sits right before the last piece whenever the string holds one; otherwise the last
      piece is the whole string. */
  lemma SplitLastAfterSeparator(s: string, sep: string)
    requires sep != []
    ensures !Contains(s, sep) ==> SplitLast(s, sep) == s
    ensures Contains(s, sep) ==> PrecededBy(s, SplitLast(s, sep), sep)
  {
    var j := LastPieceStart(s, sep, 0);
    LastPieceStartSpec(s, sep, 0);
    if Contains(s, sep) {
      assert OccursAt(s, sep, j - |sep|);
      assert s[j..] == SplitLast(s, sep);
    }
  }

  /** ASCII decimal digit; `str.isdigit()` and `\d` restricted to ASCII. */
  predicate IsDigit(c: char) {
    '0' <= c <= '9'
  }

  predicate AllDigits(s: string) {
    forall i :: 0 <= i < |s| ==> IsDigit(s[i])
  }

  /** Python's `s.isdigit()`: non-empty and every character a digit. */
  predicate IsDigits(s: string) {
    s != [] && AllDigits(s)
  }

  function DigitValue(c: char): (d: nat)
    requires IsDigit(c)
    ensures d < 10
  {
    c as int - '0' as int
  }

  function DigitChar(d: nat): (c: char)
    requires d < 10
    ensures IsDigit(c) && DigitValue(c) == d
  {
    ('0' as int + d) as char
  }

  /** Python's `int(s)` on a string of digits (leading zeros allowed). */
  function ParseNat(s: string): nat
    requires AllDigits(s)
  {
    if s == [] then 0 else 10 * ParseNat(s[..|s| - 1]) + DigitValue(s[|s| - 1])
  }

  /** Python's `str(n)` on a non-negative integer. */
  function NatToString(n: nat): (s: string)
    ensures IsDigits(s)
    ensures |s| > 1 ==> s[0] != '0'
  {
    if n < 10 then [DigitChar(n)] else NatToString(n / 10) + [DigitChar(n % 10)]
  }

  /** `int(str(n)) == n`. */
  lemma {:induction false} ParseNatToString(n: nat)
    ensures ParseNat(NatToString(n)) == n
  {
    if n >= 10 {
      var s := NatToString(n);
      assert s[..|s| - 1] == NatToString(n / 10);
      ParseNatToString(n / 10);
    }
  }

  /** ASCII lower-casing of one character. */
  function LowerChar(c: char): char {
    if 'A' <= c <= 'Z' then (c as int - 'A' as int + 'a' as int) as char else c
  }

  /** `s.lower()` for ASCII letters; every other character is kept. */
  function Lower(s: string): (r: string)
    ensures |r| == |s|
    ensures forall i :: 0 <= i < |s| ==> r[i] == LowerChar(s[i])
  {
    seq(|s|, i requires 0 <= i < |s| => LowerChar(s[i]))
  }

  /** POSIX `os.path.join(a, b)` for two components. */
  function PathJoin(a: string, b: string): (p: string)
    ensures !StartsWith(b, "/") ==> EndsWith(p, b) && StartsWith(p, a)
    ensures !StartsWith(b, "/") && a != [] && !EndsWith(a, "/") ==> p == a + "/" + b
  {
    if StartsWith(b, "/") then b
    else if a == [] || EndsWith(a, "/") then a + b
    else a + "/" + b
  }

  /** POSIX `os.path.basename(p)`: the text after the last '/'. */
  function BaseName(p: string): (r: string)
    ensures EndsWith(p, r) && '/' !in r
  {
    var r := SplitLast(p, "/");
    SplitLastHasNoSeparator(p, "/");
    ContainsChar(r, '/');
    r
  }

  /** A file name joined onto a directory ends the path, right after a '/' unless it is the whole path. */
  lemma JoinShape(dir: string, name: string)
    requires '/' !in name
    ensures EndsWith(PathJoin(dir, name), name)
    ensures var p := PathJoin(dir, name); p == name || (|name| < |p| && p[|p| - |name| - 1] == '/')
  {
    assert name == [] || name[0] != '/';
    var p := PathJoin(dir, name);
    if p != name && p != dir + "/" + name {
      assert p == dir + name && EndsWith(dir, "/") && dir != [];
      assert p[|p| - |name| - 1] == dir[|dir| - 1];
    }
  }

  lemma InSuffix(s: string, suffix: string, i: int)
    requires EndsWith(s, suffix) && |s| - |suffix| <= i < |s|
    ensures s[i] == suffix[i - (|s| - |suffix|)] && s[i] in suffix
  {
  }

  /** A one-character string occurs in `s` exactly when that character does. */
  lemma ContainsChar(s: string, c: char)
    ensures Contains(s, [c]) <==> c in s
  {
    if c in s {
      var k :| 0 <= k < |s| && s[k] == c;
      assert OccursAt(s, [c], k);
      FindFromFirst(s, [c], 0);
    }
    if Contains(s, [c]) {
      var k := FindFrom(s, [c], 0).value;
      assert s[k] == s[k..k + 1][0];
    }
  }

  /** The last '/'-separated piece of a path that ends in '/' + `name` (or is `name`) is `name`. */
  lemma SplitLastName(p: string, name: string)
    requires '/' !in name && EndsWith(p, name)
    requires p == name || (|name| < |p| && p[|p| - |name| - 1] == '/')
    ensures SplitLast(p, "/") == name
  {
    var r := SplitLast(p, "/");
    SplitLastHasNoSeparator(p, "/");
    SplitLastAfterSeparator(p, "/");
    ContainsChar(r, '/');
    ContainsChar(p, '/');
    if p != name {
      var i := |p| - |name| - 1;
      assert p[i] == '/';
      assert PrecededBy(p, r, "/");
      if |r| > |name| {
        InSuffix(p, r, i);
        assert false;
      }
      if |r| < |name| {
        InSuffix(p, name, |p| - |r| - 1);
        assert false;
      }
      assert r == p[|p| - |r|..];
    }
  }

  /** The file name joined onto a directory is what `basename` gives back. */
  lemma BaseNameOfJoin(dir: string, name: string)
    requires '/' !in name
    ensures BaseName(PathJoin(dir, name)) == name
  {
    JoinShape(dir, name);
    SplitLastName(PathJoin(dir, name), name);
  }
}
