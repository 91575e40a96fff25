/**
  The pieces of Go's `strings` package that the requirement parser relies on,
  written over `string` (a sequence of Unicode scalar values).
 */
module Strings {

  /** `unicode.IsSpace`: the characters `strings.TrimSpace` removes. */
  predicate IsSpace(c: char) {
    c == ' ' || c == '\t' || c == '\n' || c == '\r' || c == '\U{000B}' || c == '\U{000C}'
    || c == '\U{0085}' || c == '\U{00A0}' || c == '\U{1680}' || ('\U{2000}' <= c <= '\U{200A}')
    || c == '\U{2028}' || c == '\U{2029}' || c == '\U{202F}' || c == '\U{205F}' || c == '\U{3000}'
  }

  /** Every character is white space (so `strings.TrimSpace` leaves nothing). */
  predicate IsBlank(s: string) {
    forall k :: 0 <= k < |s| ==> IsSpace(s[k])
  }

  /** `strings.TrimLeft` with the white-space set. */
  function TrimLeft(s: string): string {
    if |s| > 0 && IsSpace(s[0]) then TrimLeft(s[1..]) else s
  }

  /** `strings.TrimRight` with the white-space set. */
  function TrimRight(s: string): string {
    if |s| > 0 && IsSpace(s[|s| - 1]) then TrimRight(s[..|s| - 1]) else s
  }

  /** `strings.TrimSpace`: drop leading and trailing white space. */
  function TrimSpace(s: string): string {
    TrimRight(TrimLeft(s))
  }

  /** TrimLeft drops exactly the leading run of white space. */
  lemma {:induction false} TrimLeftDrops(s: string)
    ensures |TrimLeft(s)| <= |s| && TrimLeft(s) == s[|s| - |TrimLeft(s)|..]
    ensures TrimLeft(s) == [] || !IsSpace(TrimLeft(s)[0])
    ensures forall k :: 0 <= k < |s| - |TrimLeft(s)| ==> IsSpace(s[k])
  {
    if |s| > 0 && IsSpace(s[0]) {
      var t := s[1..];
      TrimLeftDrops(t);
      assert TrimLeft(s) == TrimLeft(t);
      assert t[|t| - |TrimLeft(t)|..] == s[|s| - |TrimLeft(t)|..];
      assert forall k :: 1 <= k < |s| ==> s[k] == t[k - 1];
    }
  }

  /** TrimRight drops exactly the trailing run of white space. */
  lemma {:induction false} TrimRightDrops(s: string)
    ensures |TrimRight(s)| <= |s| && TrimRight(s) == s[..|TrimRight(s)|]
    ensures TrimRight(s) == [] || !IsSpace(TrimRight(s)[|TrimRight(s)| - 1])
    ensures forall k :: |TrimRight(s)| <= k < |s| ==> IsSpace(s[k])
  {
    if |s| > 0 && IsSpace(s[|s| - 1]) {
      var t := s[..|s| - 1];
      TrimRightDrops(t);
      assert TrimRight(s) == TrimRight(t);
      assert t[..|TrimRight(t)|] == s[..|TrimRight(t)|];
      assert forall k :: 0 <= k < |t| ==> s[k] == t[k];
    }
  }

  /**
    TrimSpace leaves nothing exactly when the text is blank; otherwise the
    result starts and ends with a non-space, and text that already does is
    left as it is.
   */
  lemma TrimSpaceFacts(s: string)
    ensures TrimSpace(s) == [] <==> IsBlank(s)
    ensures TrimSpace(s) == [] || (!IsSpace(TrimSpace(s)[0]) && !IsSpace(TrimSpace(s)[|TrimSpace(s)| - 1]))
    ensures s == [] || (!IsSpace(s[0]) && !IsSpace(s[|s| - 1])) ==> TrimSpace(s) == s
  {
    var l := TrimLeft(s);
    TrimLeftDrops(s);
    TrimRightDrops(l);
    assert l != [] ==> l[0] == s[|s| - |l|];
    if s != [] && !IsSpace(s[0]) && !IsSpace(s[|s| - 1]) {
      assert l == s;
    }
  }

  predicate HasPrefix(s: string, p: string) {
    |p| <= |s| && s[..|p|] == p
  }

  predicate HasSuffix(s: string, p: string) {
    |p| <= |s| && s[|s| - |p|..] == p
  }

  /** `strings.CutSuffix`, keeping only the string. */
  function CutSuffix(s: string, p: string): string
  {
    if HasSuffix(s, p) then s[..|s| - |p|] else s
  }

  /** `sub` occurs in `s` starting at index `k`. */
  predicate OccursAt(s: string, sub: string, k: int) {
    0 <= k && k + |sub| <= |s| && s[k..k + |sub|] == sub
  }

  lemma OccursShift(s: string, sub: string, k: int)
    requires 1 <= k <= |s|
    ensures OccursAt(s, sub, k) <==> OccursAt(s[1..], sub, k - 1)
  {
    if k + |sub| <= |s| {
      assert s[1..][k - 1..k - 1 + |sub|] == s[k..k + |sub|];
    }
  }

  /** `strings.Index`: the first index at which `sub` occurs, or -1. */
  function IndexOf(s: string, sub: string): (r: int)
    ensures -1 <= r <= |s|
  {
    if HasPrefix(s, sub) then 0
    else if |s| == 0 then -1
    else
      var r := IndexOf(s[1..], sub);
      if r < 0 then -1 else r + 1
  }

  /** `IndexOf` finds an occurrence, and no earlier one exists (none at all when it gives -1). */
  lemma {:induction false} IndexOfFirst(s: string, sub: string)
    ensures IndexOf(s, sub) >= 0 ==> OccursAt(s, sub, IndexOf(s, sub))
    ensures forall k :: 0 <= k < (if IndexOf(s, sub) < 0 then |s| + 1 else IndexOf(s, sub)) ==> !OccursAt(s, sub, k)
  {
    if HasPrefix(s, sub) {
      assert OccursAt(s, sub, 0);
    } else if |s| > 0 {
      IndexOfFirst(s[1..], sub);
      forall k | 1 <= k <= |s| ensures OccursAt(s, sub, k) <==> OccursAt(s[1..], sub, k - 1) {
        OccursShift(s, sub, k);
      }
    }
  }

  /** The first index at or after `k` holding `c`, or `|s|`. */
  function FindFrom(s: string, c: char, k: nat): (e: nat)
    requires k <= |s|
    ensures k <= e <= |s|
    decreases |s| - k
  {
    if k == |s| || s[k] == c then k else FindFrom(s, c, k + 1)
  }

  /** FindFrom stops at the first `c`. */
  lemma {:induction false} FindFromFirst(s: string, c: char, k: nat)
    requires k <= |s|
    ensures forall p :: k <= p < FindFrom(s, c, k) ==> s[p] != c
    ensures FindFrom(s, c, k) < |s| ==> s[FindFrom(s, c, k)] == c
    decreases |s| - k
  {
    if k < |s| && s[k] != c {
      FindFromFirst(s, c, k + 1);
    }
  }

  /** `strings.Index` for a one-character substring: the first index of `c`, or -1. */
  function IndexChar(s: string, c: char): int {
    var e := FindFrom(s, c, 0);
    if e == |s| then -1 else e
  }

  /** Searching for one character is searching for the one-character string. */
  lemma IndexCharIsIndexOf(s: string, c: char)
    ensures IndexChar(s, c) == IndexOf(s, [c])
  {
    var r := IndexOf(s, [c]);
    var e := FindFrom(s, c, 0);
    FindFromFirst(s, c, 0);
    IndexOfFirst(s, [c]);
    forall k | 0 <= k < |s| ensures OccursAt(s, [c], k) <==> s[k] == c {
      assert s[k..k + 1] == [s[k]];
    }
    if r >= 0 {
      assert s[r] == c;
    }
  }

  /** `strings.Contains`. */
  predicate Contains(s: string, sub: string) {
    IndexOf(s, sub) >= 0
  }

  lemma ContainsIff(s: string, sub: string)
    ensures Contains(s, sub) <==> exists k :: OccursAt(s, sub, k)
  {
    IndexOfFirst(s, sub);
    assert forall k :: OccursAt(s, sub, k) ==> 0 <= k < |s| + 1;
  }

  /** `strings.Split` on a one-character separator; like Go, it yields at least one part. */
  function Split(s: string, sep: char): (parts: seq<string>)
    ensures |parts| >= 1
    ensures forall k :: 0 <= k < |parts| ==> sep !in parts[k]
  {
    if s == [] then [""]
    else
      var rest := Split(s[1..], sep);
      if s[0] == sep then [""] + rest else [[s[0]] + rest[0]] + rest[1..]
  }

  /** `strings.Join`. */
  function Join(parts: seq<string>, sep: string): string {
    if |parts| == 0 then ""
    else if |parts| == 1 then parts[0]
    else parts[0] + sep + Join(parts[1..], sep)
  }

  lemma SplitOne(s: string, sep: char)
    requires sep !in s
    ensures Split(s, sep) == [s]
  {
    if s != [] {
      SplitOne(s[1..], sep);
      assert s == [s[0]] + s[1..];
    }
  }

  /** Splitting at a separator character splits the two sides independently. */
  lemma {:induction false} SplitConcat(a: string, sep: char, b: string)
    ensures Split(a + [sep] + b, sep) == Split(a, sep) + Split(b, sep)
  {
    if a == [] {
      assert a + [sep] + b == [sep] + b;
      assert ([sep] + b)[1..] == b;
    } else {
      assert (a + [sep] + b)[1..] == a[1..] + [sep] + b;
      SplitConcat(a[1..], sep, b);
    }
  }

  /** Joining the parts of a split restores the string. */
  lemma {:induction false} JoinSplit(s: string, sep: char)
    ensures Join(Split(s, sep), [sep]) == s
  {
    if s != [] {
      JoinSplit(s[1..], sep);
      var rest := Split(s[1..], sep);
      if s[0] == sep {
        assert ([""] + rest)[1..] == rest;
      } else if |rest| == 1 {
      } else {
        var parts := [[s[0]] + rest[0]] + rest[1..];
        assert parts[1..] == rest[1..];
        assert Join(rest, [sep]) == rest[0] + [sep] + Join(rest[1..], [sep]);
        assert s == [s[0]] + s[1..];
      }
    }
  }

  /** Splitting parts that hold no separator, once joined, gives the parts back. */
  lemma {:induction false} SplitJoin(parts: seq<string>, sep: char)
    requires |parts| >= 1
    requires forall k :: 0 <= k < |parts| ==> sep !in parts[k]
    ensures Split(Join(parts, [sep]), sep) == parts
  {
    if |parts| == 1 {
      SplitOne(parts[0], sep);
    } else {
      SplitJoin(parts[1..], sep);
      SplitOne(parts[0], sep);
      SplitConcat(parts[0], sep, Join(parts[1..], [sep]));
      assert [parts[0]] + parts[1..] == parts;
    }
  }

  /** A text without the first character of `sub` holds no occurrence of it. */
  lemma {:induction false} AbsentHeadNotFound(s: string, sub: string)
    requires sub != [] && sub[0] !in s
    ensures IndexOf(s, sub) == -1
    decreases |s|
  {
    if s != [] {
      assert s[0] != sub[0];
      assert forall k :: 0 <= k < |s| - 1 ==> s[1..][k] == s[k + 1];
      AbsentHeadNotFound(s[1..], sub);
    }
  }

  /** A character found in no part and not in the separator is not in their join. */
  lemma {:induction false} JoinLacks(parts: seq<string>, sep: string, c: char)
    requires c !in sep && forall k :: 0 <= k < |parts| ==> c !in parts[k]
    ensures c !in Join(parts, sep)
    decreases |parts|
  {
    if |parts| > 1 {
      JoinLacks(parts[1..], sep, c);
      assert c !in parts[0];
    }
  }

  /** Joining one more part adds the separator and the part. */
  lemma {:induction false} JoinSnoc(parts: seq<string>, x: string, sep: string)
    requires |parts| >= 1
    ensures Join(parts + [x], sep) == Join(parts, sep) + sep + x
  {
    if |parts| > 1 {
      JoinSnoc(parts[1..], x, sep);
      assert (parts + [x])[1..] == parts[1..] + [x];
    }
  }

  /** Every part prefixed by two spaces. */
  function IndentAll(parts: seq<string>): (r: seq<string>)
    ensures |r| == |parts|
    ensures forall k :: 0 <= k < |parts| ==> r[k] == "  " + parts[k]
  {
    if parts == [] then [] else ["  " + parts[0]] + IndentAll(parts[1..])
  }

  /** `"  " + strings.Join(parts, "\n  ")` indents every part by two spaces. */
  lemma {:induction false} JoinIndented(parts: seq<string>)
    requires |parts| >= 1
    ensures "  " + Join(parts, "\n  ") == Join(IndentAll(parts), "\n")
  {
    if |parts| > 1 {
      JoinIndented(parts[1..]);
      var ind := IndentAll(parts);
      assert ind[1..] == IndentAll(parts[1..]);
      calc {
        "  " + Join(parts, "\n  ");
        "  " + (parts[0] + "\n  " + Join(parts[1..], "\n  "));
        ("  " + parts[0]) + "\n" + ("  " + Join(parts[1..], "\n  "));
        ind[0] + "\n" + Join(ind[1..], "\n");
      }
    }
  }

  /** `s` with every occurrence of `c` removed. */
  function Without(s: string, c: char): (r: string)
    ensures c !in r
    ensures forall k :: 0 <= k < |r| ==> r[k] in s
  {
    if s == [] then [] else (if s[0] == c then [] else [s[0]]) + Without(s[1..], c)
  }

  /** Joining the tokens of a split with nothing in between removes the separators. */
  lemma {:induction false} JoinSplitEmpty(s: string, sep: char)
    ensures Join(Split(s, sep), "") == Without(s, sep)
  {
    if s != [] {
      JoinSplitEmpty(s[1..], sep);
      var rest := Split(s[1..], sep);
      if s[0] == sep {
        assert ([""] + rest)[1..] == rest;
      } else if |rest| > 1 {
        var parts := [[s[0]] + rest[0]] + rest[1..];
        assert parts[1..] == rest[1..];
        assert Join(rest, "") == rest[0] + "" + Join(rest[1..], "");
      }
    }
  }

  lemma {:induction false} WithoutBlank(s: string, c: char)
    ensures IsBlank(Without(s, c)) <==> forall k :: 0 <= k < |s| ==> s[k] == c || IsSpace(s[k])
  {
    if s != [] {
      WithoutBlank(s[1..], c);
      var w := Without(s, c);
      var tail := Without(s[1..], c);
      assert w == (if s[0] == c then [] else [s[0]]) + tail;
      if IsBlank(w) {
        assert IsBlank(tail) by {
          forall k | 0 <= k < |tail| ensures IsSpace(tail[k]) {
            assert tail[k] == w[|w| - |tail| + k];
          }
        }
        forall k | 0 <= k < |s| ensures s[k] == c || IsSpace(s[k]) {
          if k == 0 {
            if s[0] != c { assert w[0] == s[0]; }
          } else {
            assert s[k] == s[1..][k - 1];
          }
        }
      } else {
        var k :| 0 <= k < |w| && !IsSpace(w[k]);
        if k < |w| - |tail| {
          assert s[0] != c && w[k] == s[0];
        } else {
          assert w[k] == tail[k - (|w| - |tail|)];
          assert !IsBlank(tail);
          var m :| 0 <= m < |s[1..]| && s[1..][m] != c && !IsSpace(s[1..][m]);
          assert s[m + 1] == s[1..][m];
        }
      }
    }
  }
}
