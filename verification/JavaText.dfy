/**
  The few java.lang.String operations the web worker relies on, with Java's
  conventions: indexOf and lastIndexOf answer -1 when there is no occurrence,
  substring fails (throws) on bad bounds, toLowerCase and toUpperCase change
  the ASCII letters only.
  Strings are sequences of `char`, which in Dafny is a Unicode scalar value;
  Java counts UTF-16 code units, so a character outside the Basic
  Multilingual Plane is one position here and two in Java.
*/
module JavaText {
  import opened Wrappers

  /** `t` occurs in `s` at position `i`. */
  ghost predicate OccursAt(s: string, t: string, i: int)
  {
    0 <= i && i + |t| <= |s| && s[i..i + |t|] == t
  }

  /** `t` occurs somewhere in `s`: the meaning of String.contains. */
  ghost predicate Occurs(s: string, t: string)
  {
    exists i :: OccursAt(s, t, i)
  }

  /** s.indexOf(t, from): the first occurrence of `t` at or after `from`, or -1. */
  function IndexOfFrom(s: string, t: string, from: nat): int
    decreases |s| - from
  {
    if from + |t| > |s| then -1
    else if s[from..from + |t|] == t then from
    else IndexOfFrom(s, t, from + 1)
  }

  /**
    indexOf answers a position at or after `from` where `t` occurs with no
    occurrence between `from` and it, or -1 when `t` occurs nowhere from `from` on.
  */
  lemma {:induction false} IndexOfFromSpec(s: string, t: string, from: nat)
    ensures IndexOfFrom(s, t, from) == -1 || (from <= IndexOfFrom(s, t, from) && OccursAt(s, t, IndexOfFrom(s, t, from)))
    ensures IndexOfFrom(s, t, from) == -1 ==> forall i :: from <= i ==> !OccursAt(s, t, i)
    ensures IndexOfFrom(s, t, from) != -1 ==> forall i :: from <= i < IndexOfFrom(s, t, from) ==> !OccursAt(s, t, i)
    decreases |s| - from
  {
    if from + |t| <= |s| && s[from..from + |t|] != t {
      IndexOfFromSpec(s, t, from + 1);
    }
  }

  /** s.indexOf(t) */
  function IndexOf(s: string, t: string): int
  {
    IndexOfFrom(s, t, 0)
  }

  /** s.contains(t) */
  predicate Contains(s: string, t: string)
  {
    IndexOf(s, t) >= 0
  }

  /** String.contains answers exactly whether the text occurs. */
  lemma ContainsIffOccurs(s: string, t: string)
    ensures Contains(s, t) <==> Occurs(s, t)
  {
    IndexOfFromSpec(s, t, 0);
    if Contains(s, t) {
      assert OccursAt(s, t, IndexOf(s, t));
    }
  }

  /** `i` is the first position of `t` in `s`, so s.indexOf(t) answers `i`. */
  lemma IndexOfFirst(s: string, t: string, i: int)
    requires OccursAt(s, t, i)
    requires forall j :: 0 <= j < i ==> !OccursAt(s, t, j)
    ensures IndexOf(s, t) == i
  {
    IndexOfFromSpec(s, t, 0);
  }

  /** s.lastIndexOf(c): the position of the last `c` in `s`, or -1. */
  function LastIndexOf(s: string, c: char): int
  {
    if |s| == 0 then -1
    else if s[|s| - 1] == c then |s| - 1
    else LastIndexOf(s[..|s| - 1], c)
  }

  /** lastIndexOf answers a position holding `c` with no `c` after it, or -1 when `s` has no `c`. */
  lemma {:induction false} LastIndexOfSpec(s: string, c: char)
    ensures -1 <= LastIndexOf(s, c) < |s|
    ensures LastIndexOf(s, c) >= 0 ==> s[LastIndexOf(s, c)] == c
    ensures forall i :: LastIndexOf(s, c) < i < |s| ==> s[i] != c
  {
    if |s| > 0 && s[|s| - 1] != c {
      LastIndexOfSpec(s[..|s| - 1], c);
    }
  }

  /** `k` holds the last `c` of `s`, so s.lastIndexOf(c) answers `k`. */
  lemma LastIndexOfAt(s: string, c: char, k: int)
    requires 0 <= k < |s| && s[k] == c
    requires forall i :: k < i < |s| ==> s[i] != c
    ensures LastIndexOf(s, c) == k
  {
    LastIndexOfSpec(s, c);
  }

  /** s.substring(b, e), which throws unless 0 <= b <= e <= s.length(). */
  function Substring(s: string, b: int, e: int): Option<string>
  {
    if 0 <= b <= e <= |s| then Some(s[b..e]) else None
  }

  /** Character.toLowerCase on the ASCII letters. */
  function LowerChar(c: char): char
  {
    if 'A' <= c <= 'Z' then (c as int + 32) as char else c
  }

  /** s.toLowerCase() on the ASCII letters: no upper-case letter survives, nothing else changes. */
  function ToLower(s: string): (r: string)
    ensures |r| == |s|
    ensures forall i :: 0 <= i < |r| ==> !('A' <= r[i] <= 'Z')
    ensures forall i :: 0 <= i < |s| && !('A' <= s[i] <= 'Z') ==> r[i] == s[i]
  {
    seq(|s|, i requires 0 <= i < |s| => LowerChar(s[i]))
  }

  /** Character.toUpperCase on the ASCII letters. */
  function UpperChar(c: char): char
  {
    if 'a' <= c <= 'z' then (c as int - 32) as char else c
  }

  /** s.toUpperCase() on the ASCII letters: no lower-case letter survives, nothing else changes. */
  function ToUpper(s: string): (r: string)
    ensures |r| == |s|
    ensures forall i :: 0 <= i < |r| ==> !('a' <= r[i] <= 'z')
    ensures forall i :: 0 <= i < |s| && !('a' <= s[i] <= 'z') ==> r[i] == s[i]
  {
    seq(|s|, i requires 0 <= i < |s| => UpperChar(s[i]))
  }

  /** Lowering forgets whether a letter was written in upper or lower case. */
  lemma LowerOfUpper(s: string)
    ensures ToLower(ToUpper(s)) == ToLower(s)
  {
    forall i | 0 <= i < |s|
      ensures ToLower(ToUpper(s))[i] == ToLower(s)[i]
    {
      assert ToUpper(s)[i] == UpperChar(s[i]);
    }
  }

  /** Lowering twice is lowering once. */
  lemma LowerIdempotent(s: string)
    ensures ToLower(ToLower(s)) == ToLower(s)
  {
    forall i | 0 <= i < |s| ensures ToLower(ToLower(s))[i] == ToLower(s)[i] {
      assert ToLower(s)[i] == LowerChar(s[i]);
    }
  }

  /**
    s.replaceAll(pat, rep) for a pattern and a replacement free of regular
    expression metacharacters: scan from the left, replace each occurrence,
    resume after it.
  */
  function ReplaceAll(s: string, pat: string, rep: string): string
    requires pat != []
    decreases |s|
  {
    if |s| < |pat| then s
    else if s[..|pat|] == pat then rep + ReplaceAll(s[|pat|..], pat, rep)
    else [s[0]] + ReplaceAll(s[1..], pat, rep)
  }

  /** A string without the pattern comes back unchanged. */
  lemma {:induction false} ReplaceAllAbsent(s: string, pat: string, rep: string)
    requires pat != []
    requires !Occurs(s, pat)
    ensures ReplaceAll(s, pat, rep) == s
    decreases |s|
  {
    if |s| >= |pat| {
      assert !OccursAt(s, pat, 0);
      forall i | 0 <= i && i + |pat| <= |s| - 1 ensures !OccursAt(s[1..], pat, i) {
        assert s[1..][i..i + |pat|] == s[i + 1..i + 1 + |pat|];
        assert !OccursAt(s, pat, i + 1);
      }
      ReplaceAllAbsent(s[1..], pat, rep);
    }
  }

  /** A prefix at none of whose positions the pattern starts is copied as is. */
  lemma {:induction false} ReplaceAllSkipsPrefix(a: string, b: string, pat: string, rep: string)
    requires pat != []
    requires forall i :: 0 <= i < |a| ==> !OccursAt(a + b, pat, i)
    ensures ReplaceAll(a + b, pat, rep) == a + ReplaceAll(b, pat, rep)
    decreases |a|
  {
    if a != [] {
      var s := a + b;
      assert s[1..] == a[1..] + b;
      forall i | 0 <= i < |a[1..]| ensures !OccursAt(a[1..] + b, pat, i) {
        assert !OccursAt(s, pat, i + 1);
        if i + |pat| <= |s[1..]| {
          assert s[1..][i..i + |pat|] == s[i + 1..i + 1 + |pat|];
        }
      }
      ReplaceAllSkipsPrefix(a[1..], b, pat, rep);
      if |s| < |pat| {
        // the tail is shorter still, so it is copied as well
        assert ReplaceAll(b, pat, rep) == b;
      } else {
        assert !OccursAt(s, pat, 0);
        assert s[..|pat|] != pat;
        calc {
          ReplaceAll(s, pat, rep);
          [a[0]] + ReplaceAll(a[1..] + b, pat, rep);
          [a[0]] + (a[1..] + ReplaceAll(b, pat, rep));
          { assert a == [a[0]] + a[1..]; }
          a + ReplaceAll(b, pat, rep);
        }
      }
    } else {
      assert a + b == b;
    }
  }

  /** An occurrence at the front is replaced and the scan resumes after it. */
  lemma ReplaceAllAtFront(b: string, pat: string, rep: string)
    requires pat != []
    ensures ReplaceAll(pat + b, pat, rep) == rep + ReplaceAll(b, pat, rep)
  {
    var s := pat + b;
    assert s[..|pat|] == pat;
    assert s[|pat|..] == b;
  }

  /**
    When the pattern occurs exactly once, at `k`, replaceAll swaps that one
    occurrence for the replacement and copies everything around it.
  */
  lemma ReplaceAllSingle(s: string, pat: string, rep: string, k: int)
    requires pat != []
    requires OccursAt(s, pat, k)
    requires forall i :: OccursAt(s, pat, i) ==> i == k
    ensures ReplaceAll(s, pat, rep) == s[..k] + rep + s[k + |pat|..]
  {
    var a, tail := s[..k], s[k + |pat|..];
    assert s == a + (pat + tail);
    forall i | 0 <= i < |a| ensures !OccursAt(a + (pat + tail), pat, i) {
      assert i != k;
    }
    ReplaceAllSkipsPrefix(a, pat + tail, pat, rep);
    ReplaceAllAtFront(tail, pat, rep);
    NothingAfterSingle(s, pat, k);
    ReplaceAllAbsent(tail, pat, rep);
  }

  /** What follows the only occurrence of a pattern holds no occurrence of it. */
  lemma NothingAfterSingle(s: string, pat: string, k: int)
    requires pat != []
    requires OccursAt(s, pat, k)
    requires forall i :: OccursAt(s, pat, i) ==> i == k
    ensures !Occurs(s[k + |pat|..], pat)
  {
    var tail := s[k + |pat|..];
    forall j | OccursAt(tail, pat, j) ensures false {
      assert tail[j..j + |pat|] == s[k + |pat| + j..k + |pat| + j + |pat|];
      assert OccursAt(s, pat, k + |pat| + j);
    }
  }

  /**
    Overwriting the slice s[d..d+n] with `rep` keeps an occurrence of `t` that
    lies wholly before the slice where it was, and moves one that lies wholly
    after it by the change in length.
  */
  lemma SpliceKeeps(s: string, d: int, n: int, rep: string, t: string, k: int)
    requires 0 <= d && 0 <= n && d + n <= |s|
    requires OccursAt(s, t, k)
    requires k + |t| <= d || d + n <= k
    ensures OccursAt(s[..d] + rep + s[d + n..], t, if k + |t| <= d then k else k - n + |rep|)
  {
    var r := s[..d] + rep + s[d + n..];
    if k + |t| <= d {
      assert r[k..k + |t|] == s[k..k + |t|];
    } else {
      var m := k - n + |rep|;
      assert r[m..m + |t|] == s[k..k + |t|];
    }
  }
}
