/** Sorting strings without repeats. */
module Sorting {
  import opened Basics

  /** `a` comes before `b` in the order of strings. */
  predicate Less(a: string, b: string) {
    b != "" && (a == "" || a[0] < b[0] || (a[0] == b[0] && Less(a[1..], b[1..])))
  }

  /** They agree up to position `n`, where `a` ends or has the smaller character. */
  ghost predicate LessAt(a: string, b: string, n: int) {
    0 <= n <= |a| && n < |b| && a[..n] == b[..n] && (n == |a| || a[n] < b[n])
  }

  /** One string comes before another if it is a proper prefix of it, or has the smaller character where they
      first differ. */
  lemma {:induction false} LessIsLexicographic(a: string, b: string)
    ensures Less(a, b) <==> exists n :: LessAt(a, b, n)
  {
    if b != "" && a != "" && a[0] == b[0] {
      LessIsLexicographic(a[1..], b[1..]);
      if n :| LessAt(a[1..], b[1..], n) {
        assert a[..n + 1] == [a[0]] + a[1..][..n] && b[..n + 1] == [b[0]] + b[1..][..n];
        assert LessAt(a, b, n + 1);
      }
      if n :| LessAt(a, b, n) {
        assert n > 0;
        assert a[1..][..n - 1] == a[..n][1..] && b[1..][..n - 1] == b[..n][1..];
        assert LessAt(a[1..], b[1..], n - 1);
      }
    } else if Less(a, b) {
      assert LessAt(a, b, 0);
    } else if n :| LessAt(a, b, n) && n > 0 {
      LessAtFirst(a, b, n);
    }
  }

  lemma LessAtFirst(a: string, b: string, n: int)
    requires LessAt(a, b, n) && n > 0
    ensures a[0] == b[0]
  {
    assert a[..n][0] == b[..n][0];
  }

  lemma {:induction false} LessIsTotal(a: string, b: string)
    ensures a == b || Less(a, b) || Less(b, a)
  {
    if a != "" && b != "" && a[0] == b[0] {
      LessIsTotal(a[1..], b[1..]);
      assert a == [a[0]] + a[1..] && b == [b[0]] + b[1..];
    }
  }

  lemma {:induction false} LessIsTransitive(a: string, b: string, c: string)
    requires Less(a, b) && Less(b, c)
    ensures Less(a, c)
  {
    if a != "" && a[0] == b[0] == c[0] {
      LessIsTransitive(a[1..], b[1..], c[1..]);
    }
  }

  ghost predicate Ascending(s: seq<string>) {
    forall i, j | 0 <= i < j < |s| :: Less(s[i], s[j])
  }

  function Inserted(s: seq<string>, x: string): (r: seq<string>)
    requires Ascending(s) && x !in s
    ensures Ascending(r) && Members(r) == Members(s) + {x}
  {
    if s == [] then [x]
    else if Less(x, s[0]) then FirstIsLeast(s, x); [x] + s
    else
      assert s == [s[0]] + s[1..];
      var rest := Inserted(s[1..], x);
      LeastStaysFirst(s, x, rest);
      [s[0]] + rest
  }

  lemma FirstIsLeast(s: seq<string>, x: string)
    requires Ascending(s) && s != [] && Less(x, s[0])
    ensures Ascending([x] + s)
  {
    forall i | 0 <= i < |s| ensures Less(x, s[i]) {
      if i > 0 {
        LessIsTransitive(x, s[0], s[i]);
      }
    }
  }

  lemma LeastStaysFirst(s: seq<string>, x: string, rest: seq<string>)
    requires Ascending(s) && s != [] && x !in s && !Less(x, s[0])
    requires Ascending(rest) && Members(rest) == Members(s[1..]) + {x}
    ensures Ascending([s[0]] + rest) && Members([s[0]] + rest) == Members(s) + {x}
  {
    LessIsTotal(x, s[0]);
    forall i | 0 <= i < |rest| ensures Less(s[0], rest[i]) {
      assert rest[i] in Members(rest);
      if rest[i] != x {
        var j :| 0 <= j < |s[1..]| && s[1..][j] == rest[i];
        assert s[j + 1] == rest[i];
      }
    }
    assert s == [s[0]] + s[1..];
  }

  function Sorted(s: seq<string>): (r: seq<string>)
    requires NoRepeats(s)
    ensures Ascending(r) && Members(r) == Members(s)
  {
    if s == [] then []
    else
      assert s == [s[0]] + s[1..] && s[0] !in s[1..];
      var rest := Sorted(s[1..]);
      assert s[0] !in Members(rest);
      Inserted(rest, s[0])
  }
}
