/**
 * The few Python `str` operations the converter relies on: `isspace`,
 * `strip`/`rstrip`/`lstrip`, `split`, `join`, `in` and `lower`.
 * Strings are `seq<char>`.
 */
module Strings {

  /** Python's `str.isspace` for one character (the Unicode White_Space set Python uses). */
  predicate IsWs(c: char) {
    c == ' ' || ('\t' <= c <= '\r') || ('\U{1C}' <= c <= '\U{1F}')
    || c == '\U{85}' || c == '\U{A0}' || c == '\U{1680}'
    || ('\U{2000}' <= c <= '\U{200A}') || c == '\U{2028}' || c == '\U{2029}'
    || c == '\U{202F}' || c == '\U{205F}' || c == '\U{3000}'
  }

  /** Every character is white space: `s.strip() == ""`. */
  predicate IsBlank(s: string) {
    forall i {:trigger IsWs(s[i])} :: 0 <= i < |s| ==> IsWs(s[i])
  }

  /** `s` is empty or ends in a non-space character: `s.rstrip() == s`. */
  predicate RightTrimmed(s: string) {
    s == [] || !IsWs(s[|s| - 1])
  }

  /** `s` is empty or starts and ends in a non-space character: `s.strip() == s`. */
  predicate Trimmed(s: string) {
    s == [] || (!IsWs(s[0]) && !IsWs(s[|s| - 1]))
  }

  /** Python's `s.rstrip()`. */
  function RStrip(s: string): (r: string)
    ensures RightTrimmed(r) && |r| <= |s|
  {
    if s != [] && IsWs(s[|s| - 1]) then RStrip(s[..|s| - 1]) else s
  }

  /** `rstrip` keeps a prefix. */
  lemma {:induction false} RStripPrefix(s: string)
    ensures RStrip(s) == s[..|RStrip(s)|]
  {
    if s != [] && IsWs(s[|s| - 1]) {
      var p := s[..|s| - 1];
      RStripPrefix(p);
      assert p[..|RStrip(p)|] == s[..|RStrip(p)|];
    }
  }

  /** Python's `s.lstrip()`. */
  function LStrip(s: string): (r: string)
    ensures |r| <= |s| && (r == [] || !IsWs(r[0]))
  {
    if s != [] && IsWs(s[0]) then LStrip(s[1..]) else s
  }

  /** `lstrip` keeps a suffix. */
  lemma {:induction false} LStripSuffix(s: string)
    ensures LStrip(s) == s[|s| - |LStrip(s)|..]
  {
    if s != [] && IsWs(s[0]) {
      var t := s[1..];
      LStripSuffix(t);
      assert t[|t| - |LStrip(t)|..] == s[|s| - |LStrip(t)|..];
    }
  }

  /** What `rstrip` removes is white space. */
  lemma {:induction false} RStripRemovesBlank(s: string)
    ensures IsBlank(s[|RStrip(s)|..])
  {
    if s != [] && IsWs(s[|s| - 1]) {
      var p := s[..|s| - 1];
      RStripRemovesBlank(p);
      assert s[|RStrip(s)|..] == p[|RStrip(p)|..] + [s[|s| - 1]];
    }
  }

  /** What `lstrip` removes is white space. */
  lemma {:induction false} LStripRemovesBlank(s: string)
    ensures IsBlank(s[..|s| - |LStrip(s)|])
  {
    if s != [] && IsWs(s[0]) {
      var t := s[1..];
      LStripRemovesBlank(t);
      assert s[..|s| - |LStrip(s)|] == [s[0]] + t[..|t| - |LStrip(t)|];
    }
  }

  /** Python's `s.strip()`. */
  function Strip(s: string): string {
    LStrip(RStrip(s))
  }

  lemma StripIsTrimmed(s: string)
    ensures Trimmed(Strip(s))
  {
    var r := RStrip(s);
    var t := LStrip(r);
    LStripSuffix(r);
    if t != [] {
      assert t[|t| - 1] == r[|r| - 1];
    }
  }

  /** `s.strip() == ""` holds exactly for blank strings. */
  lemma {:induction false} StripEmptyIffBlank(s: string)
    ensures Strip(s) == [] <==> IsBlank(s)
  {
    var r := RStrip(s);
    if IsBlank(s) {
      BlankRStrip(s);
      BlankLStrip(r);
    } else {
      var i :| 0 <= i < |s| && !IsWs(s[i]);
      RStripRemovesBlank(s);
      RStripPrefix(s);
      assert !IsBlank(r) by {
        assert r[i] == s[i];
      }
      LStripRemovesBlank(r);
    }
  }

  lemma {:induction false} BlankRStrip(s: string)
    requires IsBlank(s)
    ensures RStrip(s) == []
  {
    if s != [] { BlankRStrip(s[..|s| - 1]); }
  }

  lemma {:induction false} BlankLStrip(s: string)
    requires IsBlank(s)
    ensures LStrip(s) == []
  {
    if s != [] { BlankLStrip(s[1..]); }
  }

  /** Stripping twice is stripping once. */
  lemma StripIdempotent(s: string)
    ensures Strip(Strip(s)) == Strip(s)
  {
    StripIsTrimmed(s);
    TrimmedStrip(Strip(s));
  }

  /** Stripping a string that is already trimmed changes nothing. */
  lemma TrimmedStrip(s: string)
    requires Trimmed(s)
    ensures Strip(s) == s
  {
  }

  /** A trailing blank run disappears under `rstrip`. */
  lemma {:induction false} RStripBlankSuffix(s: string, w: string)
    requires IsBlank(w)
    ensures RStrip(s + w) == RStrip(s)
  {
    if w != [] {
      var w' := w[..|w| - 1];
      assert (s + w)[..|s + w| - 1] == s + w';
      RStripBlankSuffix(s, w');
    } else {
      assert s + w == s;
    }
  }

  /** A leading blank run disappears under `lstrip`. */
  lemma {:induction false} LStripBlankPrefix(w: string, s: string)
    requires IsBlank(w)
    ensures LStrip(w + s) == LStrip(s)
  {
    if w != [] {
      assert (w + s)[1..] == w[1..] + s;
      LStripBlankPrefix(w[1..], s);
    } else {
      assert w + s == s;
    }
  }

  /** `lstrip` only looks at the front: once a non-space character is reached the rest is kept. */
  lemma {:induction false} LStripAppend(x: string, y: string)
    requires !IsBlank(x)
    ensures LStrip(x + y) == LStrip(x) + y
  {
    if IsWs(x[0]) {
      assert (x + y)[1..] == x[1..] + y;
      assert !IsBlank(x[1..]) by {
        var i :| 0 <= i < |x| && !IsWs(x[i]);
        assert x[1..][i - 1] == x[i];
      }
      LStripAppend(x[1..], y);
    }
  }

  /** `rstrip` of a string ending in a non-space character is the identity. */
  lemma RStripRightTrimmed(s: string)
    requires RightTrimmed(s)
    ensures RStrip(s) == s
  {
  }

  // ----------------------------------------------------------------------
  // split and join

  /** Python's `s.split(sep)` for a one-character separator. */
  function Split(s: string, sep: char): (r: seq<string>)
    ensures |r| >= 1
    ensures forall k :: 0 <= k < |r| ==> sep !in r[k]
    decreases |s|
  {
    if s == [] then [[]]
    else if s[0] == sep then [[]] + Split(s[1..], sep)
    else
      var rest := Split(s[1..], sep);
      [[s[0]] + rest[0]] + rest[1..]
  }

  /** Python's `sep.join(ls)`. */
  function Join(ls: seq<string>, sep: string): string
  {
    if |ls| == 0 then []
    else if |ls| == 1 then ls[0]
    else ls[0] + sep + Join(ls[1..], sep)
  }

  lemma {:induction false} JoinSnoc(ls: seq<string>, x: string, sep: string)
    requires ls != []
    ensures Join(ls + [x], sep) == Join(ls, sep) + sep + x
  {
    if |ls| == 1 {
      assert ls + [x] == [ls[0], x];
    } else {
      assert (ls + [x])[1..] == ls[1..] + [x];
      JoinSnoc(ls[1..], x, sep);
    }
  }

  lemma JoinCons(x: string, ls: seq<string>, sep: string)
    requires ls != []
    ensures Join([x] + ls, sep) == x + sep + Join(ls, sep)
  {
    assert ([x] + ls)[1..] == ls;
  }

  /** Prefixing the first element prefixes the joined string. */
  lemma {:induction false} JoinPrefixFirst(c: string, ls: seq<string>, sep: string)
    requires ls != []
    ensures Join([c + ls[0]] + ls[1..], sep) == c + Join(ls, sep)
  {
    if |ls| > 1 {
      JoinCons(c + ls[0], ls[1..], sep);
      JoinCons(ls[0], ls[1..], sep);
      assert ls == [ls[0]] + ls[1..];
    }
  }

  /** Splitting and joining again gives back the string. */
  lemma {:induction false} JoinSplit(s: string, sep: char)
    ensures Join(Split(s, sep), [sep]) == s
    decreases |s|
  {
    if s == [] {
    } else if s[0] == sep {
      JoinSplit(s[1..], sep);
      JoinCons([], Split(s[1..], sep), [sep]);
      assert s == [sep] + s[1..];
    } else {
      JoinSplit(s[1..], sep);
      var rest := Split(s[1..], sep);
      JoinPrefixFirst([s[0]], rest, [sep]);
      assert s == [s[0]] + s[1..];
    }
  }

  /** Splitting at one separator splits the two sides independently. */
  lemma {:induction false} SplitAppend(s: string, sep: char, t: string)
    ensures Split(s + [sep] + t, sep) == Split(s, sep) + Split(t, sep)
    decreases |s|
  {
    if s == [] {
      assert s + [sep] + t == [sep] + t;
      assert ([sep] + t)[1..] == t;
    } else {
      var u := s + [sep] + t;
      assert u[1..] == s[1..] + [sep] + t;
      SplitAppend(s[1..], sep, t);
    }
  }

  /** Every character of a piece comes from the split string. */
  lemma {:induction false} SplitChars(s: string, sep: char)
    ensures forall k, c :: 0 <= k < |Split(s, sep)| && c in Split(s, sep)[k] ==> c in s
    decreases |s|
  {
    if s != [] {
      SplitChars(s[1..], sep);
      var rest := Split(s[1..], sep);
      assert forall c :: c in s[1..] ==> c in s;
      if s[0] != sep {
        assert forall c :: c in [s[0]] + rest[0] ==> c == s[0] || c in rest[0];
        assert forall k :: 1 <= k < |Split(s, sep)| ==> Split(s, sep)[k] == rest[k];
      } else {
        assert forall k :: 1 <= k < |Split(s, sep)| ==> Split(s, sep)[k] == rest[k - 1];
      }
    }
  }

  /** Joining pieces that do not contain the separator and splitting again gives back the pieces. */
  lemma {:induction false} SplitJoin(ls: seq<string>, sep: char)
    requires ls != []
    requires forall k :: 0 <= k < |ls| ==> sep !in ls[k]
    ensures Split(Join(ls, [sep]), sep) == ls
    decreases |ls|, |ls[0]|
  {
    if |ls| == 1 {
      SplitNoSep(ls[0], sep);
    } else if ls[0] == [] {
      var rest := Join(ls[1..], [sep]);
      assert Join(ls, [sep]) == [sep] + rest;
      assert ([sep] + rest)[1..] == rest;
      SplitJoin(ls[1..], sep);
      assert ls == [[]] + ls[1..];
    } else {
      var x := ls[0];
      var ls' := [x[1..]] + ls[1..];
      assert ls'[1..] == ls[1..];
      assert x == [x[0]] + x[1..];
      SplitJoin(ls', sep);
      var j := Join(ls, [sep]);
      assert j == x + [sep] + Join(ls[1..], [sep]);
      assert Join(ls', [sep]) == x[1..] + [sep] + Join(ls[1..], [sep]);
      assert j == [x[0]] + Join(ls', [sep]);
      assert j[1..] == Join(ls', [sep]);
      assert j[0] == x[0] && x[0] != sep by {
        assert x[0] in x;
      }
      assert [[j[0]] + ls'[0]] + ls'[1..] == ls;
    }
  }

  lemma {:induction false} SplitNoSep(s: string, sep: char)
    requires sep !in s
    ensures Split(s, sep) == [s]
    decreases |s|
  {
    if s != [] {
      assert s[0] in s;
      SplitNoSep(s[1..], sep);
      assert s == [s[0]] + s[1..];
    }
  }

  // ----------------------------------------------------------------------
  // blank and non-blank strings of a list

  predicate AllBlank(ls: seq<string>) {
    forall k {:trigger IsBlank(ls[k])} :: 0 <= k < |ls| ==> IsBlank(ls[k])
  }

  /** The non-blank strings of `ls`, in order. */
  function NonBlanks(ls: seq<string>): seq<string>
  {
    if ls == [] then []
    else NonBlanks(ls[..|ls| - 1]) + (if IsBlank(ls[|ls| - 1]) then [] else [ls[|ls| - 1]])
  }

  lemma {:induction false} NonBlanksAppend(a: seq<string>, b: seq<string>)
    ensures NonBlanks(a + b) == NonBlanks(a) + NonBlanks(b)
    decreases |b|
  {
    if b == [] {
      assert a + b == a;
    } else {
      var b' := b[..|b| - 1];
      assert (a + b)[..|a + b| - 1] == a + b';
      NonBlanksAppend(a, b');
    }
  }

  lemma {:induction false} NonBlanksOfBlanks(ls: seq<string>)
    requires AllBlank(ls)
    ensures NonBlanks(ls) == []
  {
    if ls != [] {
      NonBlanksOfBlanks(ls[..|ls| - 1]);
    }
  }

  /** Every string that `NonBlanks` keeps is non-blank and comes from the input. */
  lemma {:induction false} NonBlanksMembers(ls: seq<string>)
    ensures forall x :: x in NonBlanks(ls) ==> !IsBlank(x) && x in ls
  {
    if ls != [] {
      NonBlanksMembers(ls[..|ls| - 1]);
    }
  }

  // ----------------------------------------------------------------------
  // substring search and case folding

  /** Python's `t in s` for strings. */
  predicate Contains(s: string, t: string)
    decreases |s|
  {
    |t| <= |s| && (s[..|t|] == t || Contains(s[1..], t))
  }

  /** `t` occurs in `s` starting at index `i`. */
  predicate OccursAt(s: string, t: string, i: int) {
    0 <= i <= |s| - |t| && s[i..i + |t|] == t
  }

  /** `Contains` holds exactly when `t` occurs at some position of `s`. */
  lemma {:induction false} ContainsAt(s: string, t: string)
    ensures Contains(s, t) <==> exists i :: OccursAt(s, t, i)
    decreases |s|
  {
    if |t| <= |s| {
      if s[..|t|] == t {
        assert OccursAt(s, t, 0);
      } else {
        assert |s| > 0;
        ContainsAt(s[1..], t);
        if Contains(s[1..], t) {
          var i :| OccursAt(s[1..], t, i);
          assert s[i + 1..i + 1 + |t|] == s[1..][i..i + |t|];
          assert OccursAt(s, t, i + 1);
        }
        if exists i :: OccursAt(s, t, i) {
          var i :| OccursAt(s, t, i);
          assert i != 0;
          assert s[1..][i - 1..i - 1 + |t|] == s[i..i + |t|];
          assert OccursAt(s[1..], t, i - 1);
        }
      }
    }
  }

  /** An occurrence of a string that contains `u` is an occurrence of `u` too. */
  lemma ContainsTrans(s: string, t: string, u: string)
    requires Contains(s, t) && Contains(t, u)
    ensures Contains(s, u)
  {
    ContainsAt(s, t);
    ContainsAt(t, u);
    var i :| OccursAt(s, t, i);
    var j :| OccursAt(t, u, j);
    forall k | 0 <= k < |u|
      ensures s[i + j..i + j + |u|][k] == u[k]
    {
      assert s[i..i + |t|][j + k] == t[j + k];
      assert t[j..j + |u|][k] == u[k];
    }
    assert s[i + j..i + j + |u|] == u;
    assert OccursAt(s, u, i + j);
    ContainsAt(s, u);
  }

  /** The position of the first `c` in `s`, as found by `s.split(c, 1)`. */
  function IndexOf(s: string, c: char): (i: nat)
    requires c in s
    ensures i < |s| && s[i] == c && c !in s[..i]
  {
    if s[0] == c then 0
    else
      assert c in s[1..] by { assert s == [s[0]] + s[1..]; }
      1 + IndexOf(s[1..], c)
  }

  /** Python's `c.lower()` for ASCII letters; other characters are unchanged. */
  function LowerChar(c: char): char {
    if 'A' <= c <= 'Z' then (c as int - 'A' as int + 'a' as int) as char else c
  }

  /** Python's `s.lower()` restricted to ASCII case folding. */
  function Lower(s: string): (r: string)
    ensures |r| == |s|
    ensures forall i :: 0 <= i < |s| ==> r[i] == LowerChar(s[i])
  {
    if s == [] then [] else [LowerChar(s[0])] + Lower(s[1..])
  }

  /** Lower-casing twice is lower-casing once. */
  lemma LowerIdempotent(s: string)
    ensures Lower(Lower(s)) == Lower(s)
  {
  }
}
