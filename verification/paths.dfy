/** Path strings as the updater handles them: plain PHP strings, joined with '/',
    compared byte-for-byte, relativised by dropping a fixed number of leading characters. */
module Paths {

  /** `s` begins with `p` (PHP `strpos($s, $p) === 0`, or `substr($s, 0, strlen($p)) == $p`). */
  predicate StartsWith(s: string, p: string) {
    p <= s
  }

  /** A directory entry name as a canonical filesystem lists it. */
  predicate ValidName(name: string) {
    name != "" && '/' !in name && name != "." && name != ".."
  }

  /** Append '/' unless the string already ends with one (the normalisation in MapPath). */
  function WithSlash(s: string): (r: string)
    ensures s <= r && |r| <= |s| + 1
    ensures |r| > 0 && r[|r| - 1] == '/'
  {
    if |s| > 0 && s[|s| - 1] == '/' then s else s + "/"
  }

  /** PHP `rtrim($s, '/')`: strip every trailing '/'. */
  function TrimSlashes(s: string): (r: string)
    ensures r <= s
    ensures |r| == 0 || r[|r| - 1] != '/'
    ensures forall i :: |r| <= i < |s| ==> s[i] == '/'
    decreases |s|
  {
    if |s| > 0 && s[|s| - 1] == '/' then TrimSlashes(s[..|s| - 1]) else s
  }

  /** The characters after the last '/' (empty if the string ends with '/'). */
  function LastName(s: string): (r: string)
    ensures '/' !in r
    ensures |r| <= |s|
    decreases |s|
  {
    if |s| == 0 || s[|s| - 1] == '/' then "" else LastName(s[..|s| - 1]) + [s[|s| - 1]]
  }

  /** PHP `basename`: trailing separators are ignored, then the last component is taken. */
  function Basename(p: string): string {
    LastName(TrimSlashes(p))
  }

  /** PHP `substr_replace($p, '', 0, $n)`: remove the first `n` characters. */
  function DropPrefix(p: string, n: nat): (r: string)
    ensures n <= |p| ==> |r| == |p| - n
    ensures n > |p| ==> r == ""
  {
    if n <= |p| then p[n..] else ""
  }

  /** Length of the first component of `p`: the index of the first '/', or `|p|`. */
  function NameEnd(p: string): (n: nat)
    ensures n <= |p|
    ensures forall i :: 0 <= i < n ==> p[i] != '/'
    ensures n == |p| || p[n] == '/'
  {
    if p == "" || p[0] == '/' then 0 else 1 + NameEnd(p[1..])
  }

  /** The components of a path: split on '/', empty components dropped, as POSIX resolution does. */
  function Split(p: string): (q: seq<string>)
    ensures forall i :: 0 <= i < |q| ==> q[i] != "" && '/' !in q[i]
    decreases |p|
  {
    if p == "" then []
    else if p[0] == '/' then Split(p[1..])
    else
      var n := NameEnd(p);
      [p[..n]] + Split(p[n..])
  }

  /** The path spelled by a list of components below some root: "/a/b" for ["a", "b"]. */
  function Join(q: seq<string>): (s: string)
    ensures q != [] ==> |s| > 0 && s[0] == '/'
  {
    if q == [] then "" else "/" + q[0] + Join(q[1..])
  }

  predicate ValidNames(q: seq<string>) {
    forall i :: 0 <= i < |q| ==> ValidName(q[i])
  }

  // ---------------------------------------------------------------------------
  // PHP numeric strings

  /** The whitespace PHP 8 allows around a numeric string. */
  predicate Blank(c: char) {
    c == ' ' || c == '\t' || c == '\n' || c == '\r' || c == '\U{000B}' || c == '\U{000C}'
  }

  predicate Digit(c: char) {
    '0' <= c <= '9'
  }

  /** The first index at or after `i` that is not blank. */
  function SkipBlanks(s: string, i: nat): (j: nat)
    requires i <= |s|
    ensures i <= j <= |s|
    ensures forall k :: i <= k < j ==> Blank(s[k])
    ensures j == |s| || !Blank(s[j])
    decreases |s| - i
  {
    if i < |s| && Blank(s[i]) then SkipBlanks(s, i + 1) else i
  }

  /** The end of the run of digits starting at `i`. */
  function DigitsEnd(s: string, i: nat): (j: nat)
    requires i <= |s|
    ensures i <= j <= |s|
    ensures forall k :: i <= k < j ==> Digit(s[k])
    ensures j == |s| || !Digit(s[j])
    decreases |s| - i
  {
    if i < |s| && Digit(s[i]) then DigitsEnd(s, i + 1) else i
  }

  /** The end of an exponent `e`/`E`, optional sign, digits, starting at `d`; `d` itself when
      no digit follows. */
  function ExponentEnd(s: string, d: nat): (j: nat)
    requires d < |s|
    ensures d <= j <= |s|
  {
    var f := if d + 1 < |s| && (s[d + 1] == '+' || s[d + 1] == '-') then d + 2 else d + 1;
    var g := DigitsEnd(s, f);
    if g > f then g else d
  }

  /** PHP 8's numeric string: optional blanks, an optional sign, digits with an optional
      fractional part (at least one digit in all), an optional exponent, optional blanks.
      `==` compares two numeric strings by value and any other pair of strings byte-wise. */
  predicate NumericString(s: string) {
    var a := SkipBlanks(s, 0);
    var b := if a < |s| && (s[a] == '+' || s[a] == '-') then a + 1 else a;
    var c := DigitsEnd(s, b);
    var d := if c < |s| && s[c] == '.' then DigitsEnd(s, c + 1) else c;
    var e := if d < |s| && (s[d] == 'e' || s[d] == 'E') then ExponentEnd(s, d) else d;
    (c > b || d > c + 1) && SkipBlanks(s, e) == |s|
  }

  // ---------------------------------------------------------------------------
  // Lemmas

  lemma NameEndIs(p: string, m: nat)
    requires m <= |p|
    requires forall i :: 0 <= i < m ==> p[i] != '/'
    requires m == |p| || p[m] == '/'
    ensures NameEnd(p) == m
  {
    if p != "" && p[0] != '/' {
      NameEndIs(p[1..], m - 1);
    }
  }

  /** Splitting distributes over a concatenation whose right part starts at a separator. */
  lemma {:induction false} SplitConcat(a: string, b: string)
    requires b == "" || b[0] == '/'
    ensures Split(a + b) == Split(a) + Split(b)
    decreases |a|
  {
    if a == "" {
      assert a + b == b;
    } else if a[0] == '/' {
      assert (a + b)[1..] == a[1..] + b;
      SplitConcat(a[1..], b);
    } else {
      var m := NameEnd(a);
      NameEndIs(a + b, m);
      assert (a + b)[..m] == a[..m];
      assert (a + b)[m..] == a[m..] + b;
      SplitConcat(a[m..], b);
    }
  }

  lemma SplitName(name: string)
    requires name != "" && '/' !in name
    ensures Split("/" + name) == [name]
  {
    assert ("/" + name)[1..] == name;
    NameEndIs(name, |name|);
    assert name[..|name|] == name;
    assert name[|name|..] == "";
    assert Split(name) == [name] + Split("");
  }

  /** Resolving `p + "/" + name` descends into `name`. */
  lemma SplitChild(p: string, name: string)
    requires name != "" && '/' !in name
    ensures Split(p + "/" + name) == Split(p) + [name]
  {
    assert p + "/" + name == p + ("/" + name);
    SplitConcat(p, "/" + name);
    SplitName(name);
  }

  /** Joining valid components and splitting again gives the components back. */
  lemma {:induction false} SplitJoin(q: seq<string>)
    requires forall i :: 0 <= i < |q| ==> q[i] != "" && '/' !in q[i]
    ensures Split(Join(q)) == q
  {
    if q != [] {
      assert Join(q) == ("/" + q[0]) + Join(q[1..]);
      SplitConcat("/" + q[0], Join(q[1..]));
      SplitName(q[0]);
      SplitJoin(q[1..]);
    }
  }

  lemma JoinAppend(q: seq<string>, name: string)
    ensures Join(q + [name]) == Join(q) + "/" + name
  {
    if q != [] {
      assert (q + [name])[1..] == q[1..] + [name];
      JoinAppend(q[1..], name);
    }
  }

  lemma {:induction false} JoinConcat(q: seq<string>, r: seq<string>)
    ensures Join(q + r) == Join(q) + Join(r)
  {
    if q == [] {
      assert q + r == r;
    } else {
      assert (q + r)[1..] == q[1..] + r;
      JoinConcat(q[1..], r);
    }
  }

  lemma JoinCons(path: string, a: string, q': seq<string>)
    ensures path + Join([a] + q') == path + "/" + a + Join(q')
  {
    assert ([a] + q')[1..] == q';
  }

  lemma SplitChildren(p: string, x: string, y: string, z: string)
    requires ValidName(x) && ValidName(y) && ValidName(z)
    ensures Split(p + "/" + x + "/" + y + "/" + z) == Split(p) + [x, y, z]
  {
    SplitChild(p, x);
    SplitChild(p + "/" + x, y);
    SplitChild(p + "/" + x + "/" + y, z);
  }

  /** The path of a descendant begins with the path of its ancestor and a separator. */
  lemma JoinPrefixOf(a: seq<string>, b: seq<string>)
    requires a <= b
    ensures a != b ==> StartsWith(Join(b), Join(a) + "/")
    ensures a == b ==> Join(b) == Join(a)
  {
    var rest := b[|a|..];
    assert b == a + rest;
    JoinConcat(a, rest);
    if a != b {
      var y := rest[0] + Join(rest[1..]);
      assert Join(rest) == "/" + y;
      PrefixConcat(Join(a) + "/", y);
    }
  }

  /** `WithSlash` is the shortest '/'-terminated extension: every other one is at least as long. */
  lemma WithSlashShortest(s: string, t: string)
    requires s <= t && |t| > 0 && t[|t| - 1] == '/'
    ensures |WithSlash(s)| <= |t|
  {
    if |t| == |s| {
      assert s == t;
    }
  }

  /** A string is not numeric when it starts with neither blank, sign nor digit, nor with a
      '.' followed by a digit. */
  lemma NotNumericStart(s: string)
    requires |s| > 0 && !Blank(s[0]) && !Digit(s[0]) && s[0] != '+' && s[0] != '-'
    requires s[0] == '.' ==> |s| > 1 && !Digit(s[1])
    ensures !NumericString(s)
  {
    assert SkipBlanks(s, 0) == 0 && DigitsEnd(s, 0) == 0;
    if s[0] == '.' {
      assert DigitsEnd(s, 1) == 1;
    }
  }

  /** A string starting with '/' is never numeric, so `==` and `!=` on such paths compare
      them byte-wise. */
  lemma SlashedNotNumeric(s: string)
    requires |s| > 0 && s[0] == '/'
    ensures !NumericString(s)
  {
    NotNumericStart(s);
  }

  /** "01", "1.0" and "1e0" are PHP numeric strings. */
  lemma NumericSamples()
    ensures NumericString("01") && NumericString("1.0") && NumericString("1e0")
  {
    NumericZeroOne();
    NumericOnePointZero();
    NumericOneEZero();
  }

  lemma NumericZeroOne()
    ensures NumericString("01")
  {
    var s := "01";
    assert !Blank(s[0]) && Digit(s[0]) && Digit(s[1]);
    assert SkipBlanks(s, 0) == 0;
    assert DigitsEnd(s, 1) == 2;
    assert DigitsEnd(s, 0) == 2;
    assert SkipBlanks(s, 2) == 2;
  }

  lemma NumericOnePointZero()
    ensures NumericString("1.0")
  {
    var s := "1.0";
    assert !Blank(s[0]) && Digit(s[0]) && !Digit(s[1]) && Digit(s[2]);
    assert SkipBlanks(s, 0) == 0;
    assert DigitsEnd(s, 0) == 1;
    assert DigitsEnd(s, 3) == 3;
    assert DigitsEnd(s, 2) == 3;
    assert SkipBlanks(s, 3) == 3;
  }

  lemma NumericOneEZero()
    ensures NumericString("1e0")
  {
    var s := "1e0";
    assert !Blank(s[0]) && Digit(s[0]) && !Digit(s[1]) && Digit(s[2]);
    assert SkipBlanks(s, 0) == 0;
    assert DigitsEnd(s, 0) == 1;
    assert DigitsEnd(s, 3) == 3;
    assert DigitsEnd(s, 2) == 3;
    assert ExponentEnd(s, 1) == 3;
    assert SkipBlanks(s, 3) == 3;
  }

  /** A path spelled as a root followed by components lies strictly below the root. */
  lemma RootedJoin(root: string, q: seq<string>)
    requires q != []
    ensures StartsWith(root + Join(q), root + "/")
  {
    var x := root + Join(q);
    assert x[|root|] == Join(q)[0] == '/';
    assert x[..|root| + 1] == root + "/";
  }

  lemma PrefixConcat(u: string, v: string)
    ensures StartsWith(u + v, u)
  {
    assert (u + v)[..|u|] == u;
  }

  /** The last component of a child path is the child's name. */
  lemma {:induction false} LastNameChild(p: string, name: string)
    requires '/' !in name
    ensures LastName(p + "/" + name) == name
    decreases |name|
  {
    var s := p + "/" + name;
    if name != "" {
      var k := |name| - 1;
      assert s[|s| - 1] == name[k];
      assert s[..|s| - 1] == p + "/" + name[..k];
      LastNameChild(p, name[..k]);
      assert name[..k] + [name[k]] == name;
    } else {
      assert s[|s| - 1] == '/';
    }
  }

  lemma BasenameChild(p: string, name: string)
    requires name != "" && '/' !in name
    ensures Basename(p + "/" + name) == name
  {
    var s := p + "/" + name;
    assert s[|s| - 1] == name[|name| - 1];
    LastNameChild(p, name);
  }

  /** Normalising a child path with a trailing '/' and trimming it again is the identity. */
  lemma TrimWithSlash(p: string, name: string)
    requires name != "" && '/' !in name
    ensures TrimSlashes(WithSlash(p + "/" + name)) == p + "/" + name
  {
    var s := p + "/" + name;
    assert s[|s| - 1] == name[|name| - 1];
    assert (s + "/")[..|s|] == s;
  }

  /** Relativising by dropping `|root|` characters and prefixing the root again is the identity. */
  lemma DropPrefixRoundTrip(root: string, p: string)
    requires StartsWith(p, root)
    ensures root + DropPrefix(p, |root|) == p
  {
  }
}
