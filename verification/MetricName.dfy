/**
 Reading labels out of an Envoy metric name. The watcher looks for the text of a label name
 followed by a dot, anywhere in the name, and takes what follows up to the next dot. Seen as the
 tokens between its dots, that is: the token after the first one that ends with the label name.
 */
module MetricName {
  import opened Basics

  ghost predicate OccursAt(s: string, sub: string, i: nat) {
    i + |sub| <= |s| && s[i..i + |sub|] == sub
  }

  /** The first place at or after `from` where `sub` occurs in `s`, or -1. */
  function IndexFrom(s: string, sub: string, from: nat): (i: int)
    ensures i == -1 || from <= i
    ensures i >= 0 ==> OccursAt(s, sub, i) && forall j: nat | from <= j < i :: !OccursAt(s, sub, j)
    ensures i == -1 ==> forall j: nat | from <= j :: !OccursAt(s, sub, j)
    decreases |s| - from
  {
    if from + |sub| > |s| then -1
    else if s[from..from + |sub|] == sub then from
    else IndexFrom(s, sub, from + 1)
  }

  /** The first place where `sub` occurs in `s`, or -1. */
  function Index(s: string, sub: string): (i: int)
    ensures -1 <= i <= |s|
    ensures i >= 0 ==> OccursAt(s, sub, i) && forall j: nat | j < i :: !OccursAt(s, sub, j)
    ensures i == -1 ==> forall j: nat :: !OccursAt(s, sub, j)
  {
    IndexFrom(s, sub, 0)
  }

  predicate Contains(s: string, sub: string) {
    Index(s, sub) != -1
  }

  /** The text occurs somewhere. */
  lemma ContainsIff(s: string, sub: string)
    ensures Contains(s, sub) <==> exists a, b :: s == a + sub + b
  {
    if Contains(s, sub) {
      var i := Index(s, sub);
      assert s == s[..i] + sub + s[i + |sub|..];
    }
    if a, b :| s == a + sub + b {
      assert OccursAt(s, sub, |a|);
    }
  }

  /** What precedes the first dot. */
  function UpToDot(s: string): string {
    var i := Index(s, ".");
    if i == -1 then s else s[..i]
  }

  /** The value the watcher reads for a label name. */
  function Extract(s: string, groupName: string): Option<string> {
    var groupKey := groupName + ".";
    var i := Index(s, groupKey);
    if i == -1 then None else Some(UpToDot(s[i + |groupKey|..]))
  }

  // ----- Tokens -----

  ghost predicate DotFree(s: string) {
    '.' !in s
  }

  ghost predicate AllDotFree(ts: seq<string>) {
    forall t | t in ts :: DotFree(t)
  }

  ghost function Join(ts: seq<string>): string {
    if ts == [] then "" else if |ts| == 1 then ts[0] else ts[0] + "." + Join(ts[1..])
  }

  ghost function Split(s: string): (ts: seq<string>)
    ensures ts != [] && AllDotFree(ts)
    decreases |s|
  {
    var i := Index(s, ".");
    if i == -1 then
      NoDots(s);
      [s]
    else
      DotsFrom(s, i);
      [s[..i]] + Split(s[i + 1..])
  }

  ghost predicate EndsWith(t: string, suffix: string) {
    |suffix| <= |t| && t[|t| - |suffix|..] == suffix
  }

  /** The token after the first one, other than the last, that ends with the label name. */
  ghost function TokenAfter(ts: seq<string>, groupName: string): Option<string> {
    if |ts| < 2 then None
    else if EndsWith(ts[0], groupName) then Some(ts[1])
    else TokenAfter(ts[1..], groupName)
  }

  lemma IndexIs(s: string, sub: string, i: nat)
    requires OccursAt(s, sub, i) && forall j: nat | j < i :: !OccursAt(s, sub, j)
    ensures Index(s, sub) == i
  {
  }

  lemma NoDots(s: string)
    requires Index(s, ".") == -1
    ensures DotFree(s)
  {
    forall i | 0 <= i < |s| ensures s[i] != '.' {
      assert !OccursAt(s, ".", i);
      assert s[i..i + 1] == [s[i]];
    }
  }

  lemma DotsFrom(s: string, i: nat)
    requires Index(s, ".") == i
    ensures i < |s| && s[i] == '.' && DotFree(s[..i])
  {
    assert s[i..i + 1] == ".";
    forall j | 0 <= j < i ensures s[j] != '.' {
      assert !OccursAt(s, ".", j);
      assert s[j..j + 1] == [s[j]];
    }
  }

  lemma UpToDotOf(t: string, rest: string)
    requires DotFree(t)
    ensures UpToDot(t) == t && UpToDot(t + "." + rest) == t
    ensures Index(t, ".") == -1 && Index(t + "." + rest, ".") == |t|
  {
    var s := t + "." + rest;
    forall j: nat | j < |t| ensures !OccursAt(t, ".", j) {
      assert t[j..j + 1][0] == t[j];
    }
    forall j: nat | j < |t| ensures !OccursAt(s, ".", j) {
      assert s[j..j + 1][0] == t[j];
    }
    assert s[|t|..|t| + 1] == ".";
    IndexIs(s, ".", |t|);
  }

  lemma CutAtDot(s: string, i: nat)
    requires i < |s| && s[i] == '.'
    ensures s == s[..i] + "." + s[i + 1..]
  {
  }

  lemma JoinOne(t: string, rest: seq<string>)
    requires rest != []
    ensures Join([t] + rest) == t + "." + Join(rest)
  {
    assert ([t] + rest)[1..] == rest;
  }

  lemma {:induction false} SplitJoins(s: string)
    ensures Join(Split(s)) == s
    decreases |s|
  {
    var i := Index(s, ".");
    if i != -1 {
      DotsFrom(s, i);
      SplitJoins(s[i + 1..]);
      JoinOne(s[..i], Split(s[i + 1..]));
      CutAtDot(s, i);
    }
  }

  lemma {:induction false} JoinSplits(ts: seq<string>)
    requires ts != [] && AllDotFree(ts)
    ensures Split(Join(ts)) == ts
  {
    if |ts| == 1 {
      UpToDotOf(ts[0], "");
    } else {
      var rest := Join(ts[1..]);
      JoinSplits(ts[1..]);
      UpToDotOf(ts[0], rest);
      assert Join(ts)[|ts[0]| + 1..] == rest;
      assert Join(ts)[..|ts[0]|] == ts[0];
    }
  }

  lemma JoinStartsWith(ts: seq<string>)
    requires ts != [] && AllDotFree(ts)
    ensures UpToDot(Join(ts)) == ts[0]
  {
    if |ts| == 1 {
      UpToDotOf(ts[0], "");
    } else {
      UpToDotOf(ts[0], Join(ts[1..]));
    }
  }

  /** In `t`, a dot, and more: the key occurs at the end of `t` exactly if `t` ends with the label
      name, nowhere before, and after that only where it occurs in the rest. */
  lemma KeyInFirstToken(t: string, rest: string, g: string, j: nat)
    requires DotFree(t) && DotFree(g)
    requires OccursAt(t + "." + rest, g + ".", j)
    ensures (j + |g| == |t| && EndsWith(t, g)) || (j >= |t| + 1 && OccursAt(rest, g + ".", j - |t| - 1))
  {
    var s, key := t + "." + rest, g + ".";
    var u := s[j..j + |key|];
    assert s[j + |g|] == u[|g|] == '.';
    assert forall k | j <= k < j + |g| :: s[k] == u[k - j] == g[k - j] != '.';
    assert forall k | 0 <= k < |t| :: s[k] == t[k] != '.';
    assert s[|t|] == '.';
    if j + |g| == |t| {
      assert t[|t| - |g|..] == s[j..j + |key|][..|g|] == g;
    } else {
      assert rest[j - |t| - 1..j - |t| - 1 + |key|] == s[j..j + |key|];
    }
  }

  lemma ExtractHere(t: string, rest: string, g: string)
    requires DotFree(t) && DotFree(g) && EndsWith(t, g)
    ensures Extract(t + "." + rest, g) == Some(UpToDot(rest))
  {
    var s, key, i := t + "." + rest, g + ".", |t| - |g|;
    assert s[i..i + |key|] == key;
    forall j: nat | j < i ensures !OccursAt(s, key, j) {
      if OccursAt(s, key, j) {
        KeyInFirstToken(t, rest, g, j);
      }
    }
    IndexIs(s, key, i);
    assert s[i + |key|..] == rest;
  }

  lemma OccursShifted(s: string, n: nat, sub: string)
    requires n <= |s|
    ensures forall j: nat | n <= j :: OccursAt(s, sub, j) <==> OccursAt(s[n..], sub, j - n)
  {
    forall j: nat | n <= j ensures OccursAt(s, sub, j) <==> OccursAt(s[n..], sub, j - n) {
      if j + |sub| <= |s| {
        assert s[n..][j - n..j - n + |sub|] == s[j..j + |sub|];
      }
    }
  }

  lemma IndexShifts(s: string, rest: string, sub: string, n: nat)
    requires n <= |s| && s[n..] == rest
    requires forall j: nat | OccursAt(s, sub, j) :: n <= j
    ensures Index(s, sub) == if Index(rest, sub) == -1 then -1 else n + Index(rest, sub)
  {
    OccursShifted(s, n, sub);
    var i, k := Index(rest, sub), Index(s, sub);
    if k >= 0 {
      assert OccursAt(rest, sub, k - n);
    }
    if i >= 0 {
      assert OccursAt(s, sub, n + i);
    }
  }

  lemma IndexLater(t: string, rest: string, g: string)
    requires DotFree(t) && DotFree(g) && !EndsWith(t, g)
    ensures var i := Index(rest, g + ".");
            Index(t + "." + rest, g + ".") == if i == -1 then -1 else |t| + 1 + i
  {
    var s, key := t + "." + rest, g + ".";
    forall j: nat | OccursAt(s, key, j) ensures |t| + 1 <= j {
      KeyInFirstToken(t, rest, g, j);
    }
    IndexShifts(s, rest, key, |t| + 1);
  }

  lemma DropAfter(s: string, rest: string, n: nat)
    requires n <= |rest|
    ensures (s + rest)[|s| + n..] == rest[n..]
  {
  }

  lemma ExtractLater(t: string, rest: string, g: string)
    requires DotFree(t) && DotFree(g) && !EndsWith(t, g)
    ensures Extract(t + "." + rest, g) == Extract(rest, g)
  {
    var s, key := t + "." + rest, g + ".";
    IndexLater(t, rest, g);
    var i := Index(rest, key);
    if i >= 0 {
      DropAfter(t + ".", rest, i + |key|);
      assert s[|t| + 1 + i + |key|..] == rest[i + |key|..];
    }
  }

  lemma ExtractFromToken(t: string, g: string)
    requires DotFree(t)
    ensures Extract(t, g).None?
  {
    var key := g + ".";
    forall j: nat | j + |key| <= |t| ensures !OccursAt(t, key, j) {
      var u := t[j..j + |key|];
      assert u[|g|] == t[j + |g|] != '.' && key[|g|] == '.';
    }
  }

  lemma {:induction false} ExtractFromJoin(ts: seq<string>, g: string)
    requires ts != [] && AllDotFree(ts) && DotFree(g)
    ensures Extract(Join(ts), g) == TokenAfter(ts, g)
  {
    assert DotFree(ts[0]);
    if |ts| == 1 {
      ExtractFromToken(ts[0], g);
    } else {
      ExtractFromJoin(ts[1..], g);
      if EndsWith(ts[0], g) {
        ExtractHere(ts[0], Join(ts[1..]), g);
        JoinStartsWith(ts[1..]);
      } else {
        ExtractLater(ts[0], Join(ts[1..]), g);
      }
    }
  }

  /** For every metric name and every label name without dots. */
  lemma ExtractIsTokenAfter(s: string, g: string)
    requires DotFree(g)
    ensures Extract(s, g) == TokenAfter(Split(s), g)
  {
    SplitJoins(s);
    ExtractFromJoin(Split(s), g);
  }

  // ----- Labels -----

  /** A label of a metric: its name, and the dot-free tokens of its value. */
  datatype Label = Label(name: string, value: seq<string>)

  ghost function Tokens(prefix: seq<string>, labels: seq<Label>): seq<string> {
    if labels == [] then prefix else Tokens(prefix, Before(labels)) + [Last(labels).name] + Last(labels).value
  }

  ghost predicate NoneEndsWith(ts: seq<string>, g: string) {
    forall t | t in ts :: !EndsWith(t, g)
  }

  lemma {:induction false} TokenAfterSkips(ts: seq<string>, us: seq<string>, g: string)
    requires NoneEndsWith(ts, g) && us != []
    ensures TokenAfter(ts + us, g) == TokenAfter(us, g)
  {
    if ts == [] {
      assert ts + us == us;
    } else {
      assert (ts + us)[1..] == ts[1..] + us;
      assert ts[0] in ts;
      TokenAfterSkips(ts[1..], us, g);
    }
  }

  lemma {:induction false} TokensSplitAt(prefix: seq<string>, labels: seq<Label>, k: nat) returns (rest: seq<string>)
    requires k < |labels|
    ensures Tokens(prefix, labels) == Tokens(prefix, labels[..k]) + ([labels[k].name] + labels[k].value + rest)
    decreases |labels|
  {
    if k == |labels| - 1 {
      rest := [];
      assert labels[..k] == Before(labels);
    } else {
      rest := TokensSplitAt(prefix, Before(labels), k);
      assert Before(labels)[..k] == labels[..k];
      rest := rest + [Last(labels).name] + Last(labels).value;
    }
  }

  lemma JoinOfMany(ts: seq<string>)
    requires |ts| >= 2 && DotFree(ts[0])
    ensures Join(ts) != ts[0]
  {
    assert Join(ts)[|ts[0]|] == '.';
  }

  /** If no token before a label ends with its name, the watcher reads the first token of its value,
      and so reads the whole value exactly if that has no dots. */
  lemma ReadsUpToTheFirstDot(prefix: seq<string>, labels: seq<Label>, k: nat)
    requires k < |labels| && labels[k].value != []
    requires AllDotFree(Tokens(prefix, labels))
    requires NoneEndsWith(Tokens(prefix, labels[..k]), labels[k].name)
    ensures var read := Extract(Join(Tokens(prefix, labels)), labels[k].name);
            && read == Some(labels[k].value[0])
            && (read == Some(Join(labels[k].value)) <==> |labels[k].value| == 1)
  {
    var ts, g, value := Tokens(prefix, labels), labels[k].name, labels[k].value;
    var rest := TokensSplitAt(prefix, labels, k);
    var here := [g] + value + rest;
    assert ts[|Tokens(prefix, labels[..k])|] == g;
    assert here[1] == value[0] && ts[|Tokens(prefix, labels[..k])| + 1] == value[0];
    ExtractFromJoin(ts, g);
    TokenAfterSkips(Tokens(prefix, labels[..k]), here, g);
    if |value| >= 2 {
      JoinOfMany(value);
    }
  }
}
