/** String helpers with the meaning of the Python built-ins the scripts use:
    str.endswith, the `in` substring test, str(i) for a non-negative int,
    str.split with a one-character separator, os.path.basename and
    os.path.join. */
module Strings {

  /** s.endswith(suffix) */
  predicate EndsWith(s: string, suffix: string) {
    |suffix| <= |s| && s[|s| - |suffix|..] == suffix
  }

  /** s.startswith(prefix) */
  predicate StartsWith(s: string, prefix: string) {
    |prefix| <= |s| && s[..|prefix|] == prefix
  }

  /** `sub in s` for strings */
  predicate Contains(s: string, sub: string)
    decreases |s|
  {
    StartsWith(s, sub) || (|s| > 0 && Contains(s[1..], sub))
  }

  // ---------------------------------------------------------------------
  // str(i) for a non-negative int, and its inverse

  predicate IsDigit(c: char) { '0' <= c <= '9' }

  function DigitChar(d: nat): (c: char)
    requires d < 10
    ensures IsDigit(c) && (c as int) - ('0' as int) == d
  {
    ('0' as int + d) as char
  }

  /** The decimal numeral Python's str(n) produces for n >= 0. */
  function NatToString(n: nat): (s: string)
    ensures |s| > 0
    ensures forall k :: 0 <= k < |s| ==> IsDigit(s[k])
  {
    if n < 10 then [DigitChar(n)] else NatToString(n / 10) + [DigitChar(n % 10)]
  }

  function DigitValue(c: char): nat
    requires IsDigit(c)
  {
    (c as int - '0' as int) as nat
  }

  /** The value of a string of decimal digits, read most significant first. */
  function DecimalValue(s: string): nat
    requires forall k :: 0 <= k < |s| ==> IsDigit(s[k])
  {
    if s == [] then 0 else DecimalValue(s[..|s| - 1]) * 10 + DigitValue(s[|s| - 1])
  }

  /** Reading back the numeral gives the number: str(i) loses nothing. */
  lemma {:induction false} DecimalRoundTrip(n: nat)
    ensures DecimalValue(NatToString(n)) == n
  {
    if n >= 10 {
      var s := NatToString(n);
      assert s[..|s| - 1] == NatToString(n / 10);
      DecimalRoundTrip(n / 10);
    }
  }

  /** Distinct numbers have distinct numerals. */
  lemma NatToStringInjective(m: nat, n: nat)
    requires NatToString(m) == NatToString(n)
    ensures m == n
  {
    DecimalRoundTrip(m);
    DecimalRoundTrip(n);
  }

  // ---------------------------------------------------------------------
  // str.split(sep) with a one-character separator

  /** s.split(sep): the fields between occurrences of sep, always at least one. */
  function Split(s: string, sep: char): (fields: seq<string>)
    ensures |fields| >= 1
    decreases |s|
  {
    if s == [] then [""]
    else
      var rest := Split(s[1..], sep);
      if s[0] == sep then [""] + rest else [[s[0]] + rest[0]] + rest[1..]
  }

  /** sep.join(fields) */
  function JoinWith(fields: seq<string>, sep: char): string
    requires |fields| >= 1
    decreases |fields|
  {
    if |fields| == 1 then fields[0] else fields[0] + [sep] + JoinWith(fields[1..], sep)
  }

  /** Joining the fields back with the separator restores the string. */
  lemma {:induction false} SplitJoinRoundTrip(s: string, sep: char)
    ensures JoinWith(Split(s, sep), sep) == s
    decreases |s|
  {
    if s != [] {
      var rest := Split(s[1..], sep);
      SplitJoinRoundTrip(s[1..], sep);
      if s[0] != sep {
        if |rest| == 1 {
          assert Split(s, sep) == [[s[0]] + rest[0]];
        } else {
          var fs := Split(s, sep);
          assert fs[1..] == rest[1..];
          assert JoinWith(fs, sep) == [s[0]] + rest[0] + [sep] + JoinWith(rest[1..], sep);
        }
      } else {
        assert Split(s, sep)[1..] == rest;
      }
    }
  }

  /** No field contains the separator. */
  lemma {:induction false} SplitFieldsFree(s: string, sep: char)
    ensures forall k :: 0 <= k < |Split(s, sep)| ==> sep !in Split(s, sep)[k]
    decreases |s|
  {
    if s != [] {
      SplitFieldsFree(s[1..], sep);
    }
  }

  /** There is more than one field exactly when the separator occurs:
      s.split(sep)[1] is defined iff sep in s. */
  lemma {:induction false} SplitHasSecondField(s: string, sep: char)
    ensures |Split(s, sep)| >= 2 <==> sep in s
    decreases |s|
  {
    if s != [] {
      SplitHasSecondField(s[1..], sep);
      assert sep in s <==> s[0] == sep || sep in s[1..];
    }
  }

  // ---------------------------------------------------------------------
  // os.path.basename and os.path.join (POSIX)

  /** os.path.basename(p): what follows the last '/'. */
  function Basename(p: string): (b: string)
    ensures '/' !in b
    ensures EndsWith(p, b)
    decreases |p|
  {
    if p == [] then []
    else if p[|p| - 1] == '/' then []
    else
      var b := Basename(p[..|p| - 1]) + [p[|p| - 1]];
      assert p[|p| - |b|..] == p[..|p| - 1][|p| - 1 - (|b| - 1)..] + [p[|p| - 1]];
      b
  }

  /** The base name is the whole path when it has no '/', and otherwise
      it starts right after a '/': nothing that could belong to it is cut. */
  lemma {:induction false} BasenameMaximal(p: string)
    ensures var b := Basename(p); b == p || (|b| < |p| && p[|p| - |b| - 1] == '/')
    decreases |p|
  {
    if p != [] && p[|p| - 1] != '/' {
      var q := p[..|p| - 1];
      BasenameMaximal(q);
      var b := Basename(q);
      if b != q {
        assert p[|p| - |b| - 2] == q[|q| - |b| - 1];
      }
    }
  }

  /** os.path.join(dir, name) for two components. */
  function PathJoin(dir: string, name: string): string {
    if StartsWith(name, "/") then name
    else if dir == [] || dir[|dir| - 1] == '/' then dir + name
    else dir + "/" + name
  }

  /** Appending a character other than '/' appends it to the base name. */
  lemma BasenameSnoc(p: string, x: char)
    requires x != '/'
    ensures Basename(p + [x]) == Basename(p) + [x]
  {
    var q := p + [x];
    assert q[..|q| - 1] == p;
  }

  /** Splitting off the last character of the second part of a concatenation. */
  lemma ConcatSnoc(head: string, name: string)
    requires name != []
    ensures head + name == (head + name[..|name| - 1]) + [name[|name| - 1]]
    ensures name == name[..|name| - 1] + [name[|name| - 1]]
  {
  }

  /** A prefix of a string without '/' has none either. */
  lemma NoSlashPrefix(name: string, n: nat)
    requires '/' !in name && n <= |name|
    ensures '/' !in name[..n]
  {
    forall k | 0 <= k < n ensures name[..n][k] != '/' { assert name[..n][k] == name[k]; }
  }

  lemma {:induction false} BasenameAfterSlash(head: string, name: string)
    requires head == [] || head[|head| - 1] == '/'
    requires '/' !in name
    ensures Basename(head + name) == name
    decreases |name|
  {
    if name == [] {
      assert head + name == head;
    } else {
      var init := name[..|name| - 1];
      var last := name[|name| - 1];
      assert last in name;
      NoSlashPrefix(name, |name| - 1);
      BasenameAfterSlash(head, init);
      ConcatSnoc(head, name);
      BasenameSnoc(head + init, last);
    }
  }

  /** The base name of a path built by joining a directory entry's name to
      its directory is that name again. */
  lemma BasenameOfJoin(dir: string, name: string)
    requires '/' !in name
    ensures Basename(PathJoin(dir, name)) == name
  {
    assert !StartsWith(name, "/") by {
      if name != [] { assert name[0] in name; }
    }
    if dir == [] || dir[|dir| - 1] == '/' {
      BasenameAfterSlash(dir, name);
    } else {
      assert dir + "/" + name == (dir + "/") + name;
      BasenameAfterSlash(dir + "/", name);
    }
  }
}
