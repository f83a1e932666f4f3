/**
 * The java.lang.String operations the OFX reader relies on, over `seq<char>`:
 * `startsWith`, `endsWith`, `trim`, `replace(target, "")`, `split` on a
 * one-character pattern and `String.join` with a one-character delimiter.
 */
module JavaString {

  /** `s.startsWith(p)` */
  predicate StartsWith(s: string, p: string) {
    |p| <= |s| && s[..|p|] == p
  }

  /** `s.endsWith(p)` */
  predicate EndsWith(s: string, p: string) {
    |p| <= |s| && s[|s| - |p|..] == p
  }

  /** `t` occurs somewhere in `s` (`s.contains(t)`). */
  predicate Contains(s: string, t: string) {
    exists i :: 0 <= i <= |s| && StartsWith(s[i..], t)
  }

  /** The characters `String.trim` strips: code point at most U+0020. */
  predicate IsTrimmable(c: char) {
    c <= ' '
  }

  /** Strips the leading trimmable characters. */
  function TrimStart(s: string): (r: string)
    ensures |r| <= |s|
    ensures r == [] || !IsTrimmable(r[0])
    decreases |s|
  {
    if |s| > 0 && IsTrimmable(s[0]) then TrimStart(s[1..]) else s
  }

  /** Strips the trailing trimmable characters. */
  function TrimEnd(s: string): (r: string)
    ensures |r| <= |s| && (r != [] ==> r[0] == s[0])
    ensures r == [] || !IsTrimmable(r[|r| - 1])
    decreases |s|
  {
    if |s| > 0 && IsTrimmable(s[|s| - 1]) then TrimEnd(s[..|s| - 1]) else s
  }

  /**
   * `r` is the slice of `s` that starts at `i`, and every character of `s`
   * outside that slice is trimmable.
   */
  predicate PaddedSlice(s: string, r: string, i: int) {
    0 <= i <= |s| - |r| && r == s[i..i + |r|] &&
    (forall k :: 0 <= k < i ==> IsTrimmable(s[k])) &&
    (forall k :: i + |r| <= k < |s| ==> IsTrimmable(s[k]))
  }

  /**
   * `s.trim()`: the slice of `s` left once every character at most ' ' is
   * removed from both ends; it neither starts nor ends with such a character.
   */
  function Trim(s: string): (r: string)
    ensures r == [] || (!IsTrimmable(r[0]) && !IsTrimmable(r[|r| - 1]))
  {
    TrimEnd(TrimStart(s))
  }

  /** `TrimStart` keeps a suffix of `s` and drops only trimmable characters. */
  lemma {:induction false} TrimStartSuffix(s: string)
    ensures TrimStart(s) == s[|s| - |TrimStart(s)|..]
    ensures forall k :: 0 <= k < |s| - |TrimStart(s)| ==> IsTrimmable(s[k])
    decreases |s|
  {
    if |s| > 0 && IsTrimmable(s[0]) {
      TrimStartSuffix(s[1..]);
      forall k | 1 <= k < |s| - |TrimStart(s)|
        ensures IsTrimmable(s[k])
      {
        assert s[k] == s[1..][k - 1];
      }
    }
  }

  /** `TrimEnd` keeps a prefix of `s` and drops only trimmable characters. */
  lemma {:induction false} TrimEndPrefix(s: string)
    ensures TrimEnd(s) == s[..|TrimEnd(s)|]
    ensures forall k :: |TrimEnd(s)| <= k < |s| ==> IsTrimmable(s[k])
    decreases |s|
  {
    if |s| > 0 && IsTrimmable(s[|s| - 1]) {
      TrimEndPrefix(s[..|s| - 1]);
      forall k | |TrimEnd(s)| <= k < |s| - 1
        ensures IsTrimmable(s[k])
      {
        assert s[k] == s[..|s| - 1][k];
      }
    }
  }

  /** What `Trim` keeps is a slice of `s` after its leading trimmable characters. */
  lemma TrimKeeps(s: string)
    ensures Trim(s) == s[|s| - |TrimStart(s)|..|s| - |TrimStart(s)| + |Trim(s)|]
  {
    var t := TrimStart(s);
    TrimStartSuffix(s);
    TrimEndPrefix(t);
  }

  /** What `Trim` drops at the end of `s` is trimmable. */
  lemma TrimDropsEnd(s: string)
    ensures forall k :: |s| - |TrimStart(s)| + |Trim(s)| <= k < |s| ==> IsTrimmable(s[k])
  {
    var t := TrimStart(s);
    var i := |s| - |t|;
    TrimStartSuffix(s);
    TrimEndPrefix(t);
    forall k | i + |Trim(s)| <= k < |s|
      ensures IsTrimmable(s[k])
    {
      assert s[k] == t[k - i];
    }
  }

  /** What `Trim` keeps is the slice of `s` after its leading trimmable characters. */
  lemma TrimSlice(s: string)
    ensures PaddedSlice(s, Trim(s), |s| - |TrimStart(s)|)
  {
    TrimStartSuffix(s);
    TrimKeeps(s);
    TrimDropsEnd(s);
  }

  /**
   * `s.replace(t, "")`: every occurrence of `t` found by a left-to-right scan
   * that resumes after each match is deleted.
   */
  function Remove(s: string, t: string): (r: string)
    requires t != []
    ensures |r| <= |s|
    decreases |s|
  {
    if s == [] then []
    else if StartsWith(s, t) then Remove(s[|t|..], t)
    else [s[0]] + Remove(s[1..], t)
  }

  /**
   * `String.join` with a one-character delimiter, over elements already
   * converted to text.
   */
  function Join(parts: seq<string>, sep: char): string
    decreases |parts|
  {
    if |parts| == 0 then []
    else if |parts| == 1 then parts[0]
    else parts[0] + [sep] + Join(parts[1..], sep)
  }

  /**
   * Every piece of `s` between occurrences of `c`, empty pieces included;
   * joining the pieces with `c` gives `s` back.
   */
  function SplitAll(s: string, c: char): (r: seq<string>)
    ensures |r| >= 1
    ensures forall k :: 0 <= k < |r| ==> c !in r[k]
    ensures Join(r, c) == s
    decreases |s|
  {
    if s == [] then [[]]
    else
      var rest := SplitAll(s[1..], c);
      if s[0] == c then
        assert Join([[]] + rest, c) == [c] + Join(rest, c) by {
          assert ([[]] + rest)[1..] == rest;
        }
        assert s == [c] + s[1..];
        [[]] + rest
      else
        var r := [[s[0]] + rest[0]] + rest[1..];
        assert Join(r, c) == [s[0]] + Join(rest, c) by {
          if |rest| > 1 {
            assert r[1..] == rest[1..];
          }
        }
        assert s == [s[0]] + s[1..];
        r
  }

  /** Drops the empty pieces at the end of `ps`. */
  function DropTrailingEmpty(ps: seq<string>): (r: seq<string>)
    ensures r <= ps
    ensures r == [] || r[|r| - 1] != []
    ensures forall k :: |r| <= k < |ps| ==> ps[k] == []
    decreases |ps|
  {
    if ps != [] && ps[|ps| - 1] == [] then DropTrailingEmpty(ps[..|ps| - 1]) else ps
  }

  /**
   * `s.split(p)` where the pattern `p` matches exactly the character `c` and
   * the limit is 0: `[s]` when `c` does not occur, otherwise the pieces
   * between occurrences of `c` with the trailing empty pieces removed.
   */
  function Split(s: string, c: char): seq<string> {
    if c !in s then [s] else DropTrailingEmpty(SplitAll(s, c))
  }

  /**
   * Deleting `t` from `a + b` keeps `a` whole when no occurrence of `t`
   * starts inside `a`.
   */
  lemma {:induction false} RemoveKeepsPrefix(a: string, b: string, t: string)
    requires t != []
    requires forall i :: 0 <= i < |a| ==> !StartsWith((a + b)[i..], t)
    ensures Remove(a + b, t) == a + Remove(b, t)
    decreases |a|
  {
    if a != [] {
      assert (a + b)[0..] == a + b;
      assert !StartsWith(a + b, t);
      assert (a + b)[1..] == a[1..] + b;
      assert Remove(a + b, t) == [a[0]] + Remove(a[1..] + b, t);
      forall i | 0 <= i < |a[1..]|
        ensures !StartsWith((a[1..] + b)[i..], t)
      {
        assert (a[1..] + b)[i..] == (a + b)[i + 1..];
      }
      RemoveKeepsPrefix(a[1..], b, t);
      assert a == [a[0]] + a[1..];
    } else {
      assert a + b == b;
    }
  }

  /** A string in which `t` does not occur is left unchanged by deleting `t`. */
  lemma RemoveAbsent(s: string, t: string)
    requires t != [] && !Contains(s, t)
    ensures Remove(s, t) == s
  {
    forall i | 0 <= i < |s|
      ensures !StartsWith((s + [])[i..], t)
    {
      assert (s + [])[i..] == s[i..];
    }
    RemoveKeepsPrefix(s, [], t);
    assert s + [] == s;
  }

  /** A string without `c` is a single piece. */
  lemma {:induction false} SplitAllWithout(p: string, c: char)
    requires c !in p
    ensures SplitAll(p, c) == [p]
    decreases |p|
  {
    if p != [] {
      SplitAllWithout(p[1..], c);
      assert p == [p[0]] + p[1..];
    }
  }

  /** A first piece without `c`, followed by `c`, splits off on its own. */
  lemma {:induction false} SplitAllAfterFirst(p: string, rest: string, c: char)
    requires c !in p
    ensures SplitAll(p + [c] + rest, c) == [p] + SplitAll(rest, c)
    decreases |p|
  {
    if p == [] {
      assert (p + [c] + rest)[1..] == rest;
    } else {
      assert (p + [c] + rest)[1..] == p[1..] + [c] + rest;
      SplitAllAfterFirst(p[1..], rest, c);
      assert p == [p[0]] + p[1..];
    }
  }

  /**
   * Splitting a join recovers the parts, provided no part contains the
   * delimiter.
   */
  lemma {:induction false} SplitAllJoin(parts: seq<string>, c: char)
    requires |parts| >= 1
    requires forall k :: 0 <= k < |parts| ==> c !in parts[k]
    ensures SplitAll(Join(parts, c), c) == parts
    decreases |parts|
  {
    if |parts| == 1 {
      SplitAllWithout(parts[0], c);
    } else {
      SplitAllJoin(parts[1..], c);
      SplitAllAfterFirst(parts[0], Join(parts[1..], c), c);
      assert parts == [parts[0]] + parts[1..];
    }
  }

  /** Every piece is empty exactly when every character is the delimiter. */
  lemma {:induction false} SplitAllAllEmpty(s: string, c: char)
    ensures (forall k :: 0 <= k < |SplitAll(s, c)| ==> SplitAll(s, c)[k] == []) <==>
            (forall k :: 0 <= k < |s| ==> s[k] == c)
    decreases |s|
  {
    if s != [] {
      SplitAllAllEmpty(s[1..], c);
      var rest := SplitAll(s[1..], c);
      if s[0] == c {
        assert SplitAll(s, c) == [[]] + rest;
        if forall k :: 0 <= k < |s[1..]| ==> s[1..][k] == c {
          assert forall k :: 0 <= k < |s| ==> s[k] == c by {
            forall k | 0 <= k < |s| ensures s[k] == c {
              if k > 0 { assert s[k] == s[1..][k - 1]; }
            }
          }
        }
      } else {
        assert SplitAll(s, c)[0] == [s[0]] + rest[0];
      }
    }
  }

  /**
   * `s.split(c)` is empty exactly when `s` is non-empty and made only of
   * `c`; otherwise its first element is the text of `s` before the first
   * `c` (all of `s` when there is none).
   */
  lemma SplitFirst(s: string, c: char)
    ensures Split(s, c) == [] <==> (s != [] && forall k :: 0 <= k < |s| ==> s[k] == c)
    ensures Split(s, c) != [] ==>
      c !in Split(s, c)[0] && (Split(s, c)[0] == s || StartsWith(s, Split(s, c)[0] + [c]))
  {
    SplitAllAllEmpty(s, c);
    var ps := SplitAll(s, c);
    if c in s {
      var r := DropTrailingEmpty(ps);
      if r == [] {
        assert forall k :: 0 <= k < |ps| ==> ps[k] == [];
      } else {
        assert r[0] == ps[0];
      }
      if r != [] {
        assert r[|r| - 1] == ps[|r| - 1];
      }
      if |ps| > 1 {
        assert s == ps[0] + [c] + Join(ps[1..], c);
        assert s[..|ps[0] + [c]|] == ps[0] + [c];
      }
    } else {
      if s != [] { assert s[0] in s; }
    }
  }

  /** The text of `s` before the first `c`; all of `s` when `c` does not occur. */
  function BeforeFirst(s: string, c: char): (r: string)
    ensures r <= s && c !in r
    ensures |r| < |s| ==> s[|r|] == c
    decreases |s|
  {
    if s == [] || s[0] == c then [] else [s[0]] + BeforeFirst(s[1..], c)
  }

  /** Without `c` in `s`, all of `s` comes before the first `c`. */
  lemma {:induction false} BeforeFirstAbsent(s: string, c: char)
    requires c !in s
    ensures BeforeFirst(s, c) == s
    decreases |s|
  {
    if s != [] {
      assert s[0] in s;
      assert s == [s[0]] + s[1..];
      BeforeFirstAbsent(s[1..], c);
    }
  }

  /** The first piece between occurrences of `c` is the text before the first `c`. */
  lemma {:induction false} SplitAllHead(s: string, c: char)
    ensures SplitAll(s, c)[0] == BeforeFirst(s, c)
    decreases |s|
  {
    if s != [] && s[0] != c {
      SplitAllHead(s[1..], c);
    }
  }

  /** The first element of `s.split(c)`, when there is one, is the text before the first `c`. */
  lemma SplitHead(s: string, c: char)
    ensures Split(s, c) != [] ==> Split(s, c)[0] == BeforeFirst(s, c)
  {
    if c in s {
      SplitAllHead(s, c);
      var ps := SplitAll(s, c);
      var r := DropTrailingEmpty(ps);
      if r != [] {
        assert r[0] == ps[0];
      }
    } else {
      BeforeFirstAbsent(s, c);
    }
  }
}
