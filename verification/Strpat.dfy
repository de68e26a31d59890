/** The glob matcher of lib/string.c: '*' stands for any run of characters, '?' for exactly one.

    strpat cuts the pattern into the segments between its stars, looks for each of them greedily from
    the left and anchors the first and the last one.  A '$' ends the pattern, since the routine itself
    puts one behind it as an end mark. */
module Strpat {

  const MAXLEN: nat := 128

  /** A C string holds no NUL but the one behind its end. */
  predicate NoNul(s: string) {
    forall i | 0 <= i < |s| :: s[i] != '\0'
  }

  /** The character at offset i of a NUL-terminated string. */
  function At(s: string, i: nat): char {
    if i < |s| then s[i] else '\0'
  }

  // ---------- The declared meaning ----------

  predicate Fits(c: char, p: char) {
    p == '?' || c == p
  }

  /** The text s is matched by the pattern p. */
  predicate Matches(s: string, p: string)
    decreases |p|
  {
    if p == "" then s == ""
    else if p[0] == '*' then exists k | 0 <= k <= |s| :: Matches(s[k..], p[1..])
    else s != "" && Fits(s[0], p[0]) && Matches(s[1..], p[1..])
  }

  /** The part of a pattern that strpat looks at. */
  function BeforeDollar(p: string): string {
    if p == "" || p[0] == '$' then "" else [p[0]] + BeforeDollar(p[1..])
  }

  // ---------- Segments ----------

  predicate SegAt(s: string, i: nat, d: string) {
    i + |d| <= |s| && forall j | 0 <= j < |d| :: Fits(s[i + j], d[j])
  }

  predicate NoStar(d: string) {
    forall j | 0 <= j < |d| :: d[j] != '*'
  }

  /** A star-free front of the pattern must match exactly where the text begins. */
  lemma {:induction false} SegmentFront(s: string, i: nat, d: string, rest: string)
    requires NoStar(d) && i <= |s|
    ensures Matches(s[i..], d + rest) <==> SegAt(s, i, d) && Matches(s[i + |d|..], rest)
    decreases |d|
  {
    if d == "" {
      assert d + rest == rest;
    } else {
      assert (d + rest)[1..] == d[1..] + rest;
      if i < |s| {
        assert s[i..][1..] == s[i + 1..];
        SegmentFront(s, i + 1, d[1..], rest);
        SegStep(s, i, d);
      }
    }
  }

  lemma SegStep(s: string, i: nat, d: string)
    requires d != "" && i < |s|
    ensures SegAt(s, i, d) <==> Fits(s[i], d[0]) && SegAt(s, i + 1, d[1..])
  {
    if Fits(s[i], d[0]) && SegAt(s, i + 1, d[1..]) {
      forall j | 0 <= j < |d| ensures Fits(s[i + j], d[j]) {
        if j > 0 { assert Fits(s[i + 1 + (j - 1)], d[1..][j - 1]); }
      }
    }
    if SegAt(s, i, d) {
      forall j | 0 <= j < |d[1..]| ensures Fits(s[i + 1 + j], d[1..][j]) { assert Fits(s[i + (j + 1)], d[j + 1]); }
    }
  }

  lemma StarFront(s: string, i: nat, p: string)
    requires i <= |s| && p != "" && p[0] == '*'
    ensures Matches(s[i..], p) <==> exists k | i <= k <= |s| :: Matches(s[k..], p[1..])
  {
    if Matches(s[i..], p) {
      var k :| 0 <= k <= |s[i..]| && Matches(s[i..][k..], p[1..]);
      assert s[i..][k..] == s[i + k..];
    }
    if k :| i <= k <= |s| && Matches(s[k..], p[1..]) {
      assert s[i..][k - i..] == s[k..];
    }
  }

  /** What a pattern that begins with a star matches in a shorter tail it matches in a longer one. */
  lemma StarMonotone(s: string, i: nat, j: nat, p: string)
    requires i <= j <= |s| && p != "" && p[0] == '*' && Matches(s[j..], p)
    ensures Matches(s[i..], p)
  {
    StarFront(s, j, p);
    StarFront(s, i, p);
  }

  lemma SegFits(s: string, i: nat, d: string)
    ensures SegAt(s, i, d) ==> i + |d| <= |s|
  {
  }

  /** Greedy choice: between two stars the leftmost occurrence of a segment is as good as any. */
  lemma Greedy(s: string, i: nat, d: string, rest: string, k: nat)
    requires NoStar(d) && rest != "" && rest[0] == '*' && i <= k <= |s|
    requires SegAt(s, k, d) && forall m | i <= m < k :: !SegAt(s, m, d)
    ensures Matches(s[i..], ['*'] + d + rest) <==> Matches(s[k + |d|..], rest)
  {
    hide Matches, SegAt;
    var p := ['*'] + d + rest;
    assert p[1..] == d + rest;
    StarFront(s, i, p);
    SegmentFront(s, k, d, rest);
    SegFits(s, k, d);
    if Matches(s[i..], p) {
      var m :| i <= m <= |s| && Matches(s[m..], d + rest);
      SegmentFront(s, m, d, rest);
      SegFits(s, m, d);
      StarMonotone(s, k + |d|, m + |d|, rest);
    }
  }

  /** No occurrence of the segment, no match. */
  lemma NoOccurrence(s: string, i: nat, d: string, rest: string)
    requires NoStar(d) && i <= |s| && forall m | i <= m <= |s| :: !SegAt(s, m, d)
    ensures !Matches(s[i..], ['*'] + d + rest)
  {
    var p := ['*'] + d + rest;
    assert p[1..] == d + rest;
    StarFront(s, i, p);
    forall m | i <= m <= |s| ensures !Matches(s[m..], d + rest) { SegmentFront(s, m, d, rest); }
  }

  /** The last segment must end where the text ends. */
  lemma LastSegment(s: string, i: nat, d: string)
    requires NoStar(d) && i <= |s|
    ensures Matches(s[i..], ['*'] + d) <==> i + |d| <= |s| && SegAt(s, |s| - |d|, d)
  {
    var p := ['*'] + d;
    assert p[1..] == d && d + "" == d;
    StarFront(s, i, p);
    forall m | i <= m <= |s| ensures Matches(s[m..], d) <==> SegAt(s, m, d) && m + |d| == |s| {
      SegmentFront(s, m, d, "");
    }
  }

  // ---------- The searches ----------

  /** Compare the segment with the text at i, the first characters being known to fit. */
  method Compare(s: string, i: nat, d: string) returns (ok: bool)
    requires NoNul(s) && NoNul(d) && d != "" && i < |s| && Fits(s[i], d[0])
    ensures ok <==> SegAt(s, i, d)
  {
    var p, q := i + 1, 1;
    while (At(s, p) == At(d, q) || At(d, q) == '?') && At(s, p) != '\0'
      invariant p == i + q && 1 <= q <= |d| && p <= |s|
      invariant forall j | 0 <= j < q :: Fits(s[i + j], d[j])
      decreases |d| - q
    {
      p, q := p + 1, q + 1;
    }
    ok := At(d, q) == '\0';
  }

  /** __find_first: the first occurrence at or after i, or -1. */
  method FindFirst(s: string, i: nat, d: string) returns (r: int)
    requires NoNul(s) && NoNul(d) && i <= |s|
    ensures r >= 0 ==> i <= r <= |s| && SegAt(s, r, d) && forall m | i <= m < r :: !SegAt(s, m, d)
    ensures r < 0 ==> forall m | i <= m <= |s| :: !SegAt(s, m, d)
  {
    if At(d, 0) == '\0' {
      return i;
    }
    var k := i;
    while At(s, k) != '\0'
      invariant i <= k <= |s| && forall m | i <= m < k :: !SegAt(s, m, d)
      decreases |s| - k
    {
      if At(s, k) == At(d, 0) || '?' == At(d, 0) {
        var ok := Compare(s, k, d);
        if ok {
          return k;
        }
      }
      k := k + 1;
    }
    return -1;
  }

  /** __find_last: the last occurrence at or after i, or -1. */
  method FindLast(s: string, i: nat, d: string) returns (maybe: int)
    requires NoNul(s) && NoNul(d) && i <= |s|
    ensures maybe >= 0 ==> i <= maybe <= |s| && SegAt(s, maybe, d) && forall m | maybe < m <= |s| :: !SegAt(s, m, d)
    ensures maybe < 0 ==> forall m | i <= m <= |s| :: !SegAt(s, m, d)
  {
    maybe := -1;
    if At(d, 0) == '\0' {
      return |s|;
    }
    var k := i;
    while At(s, k) != '\0'
      invariant i <= k <= |s|
      invariant maybe >= 0 ==> i <= maybe < k && SegAt(s, maybe, d) && forall m | maybe < m < k :: !SegAt(s, m, d)
      invariant maybe < 0 ==> forall m | i <= m < k :: !SegAt(s, m, d)
      decreases |s| - k
    {
      if At(s, k) == At(d, 0) || '?' == At(d, 0) {
        var ok := Compare(s, k, d);
        if ok {
          maybe := k;
        }
      }
      k := k + 1;
    }
  }

  // ---------- strpat ----------

  /** What strpat's loop has still to decide, the text before offset s being dealt with: at the front
      mark the whole pattern against the whole text, at a star the rest of the pattern, star
      included, against the rest of the text.  The pattern ends before offset e of the buffer. */
  ghost predicate Goal(s0: string, b: string, d: nat, e: nat, s: nat)
    requires d < e <= |b| && s <= |s0|
  {
    if d == 0 then Matches(s0, b[1..e]) else Matches(s0[s..], b[d..e])
  }

  /** The last segment of a pattern, and where the search for its last occurrence ended. */
  lemma LastStep(s0: string, b: string, d: nat, e: nat, s: nat, r: int)
    requires d < e <= |b| && s <= |s0| && NoStar(b[d + 1..e]) && (if d == 0 then s == 0 else b[d] == '*')
    requires var seg := b[d + 1..e];
      if r >= 0 then s <= r <= |s0| && SegAt(s0, r, seg) && forall m | r < m <= |s0| :: !SegAt(s0, m, seg)
      else forall m | s <= m <= |s0| :: !SegAt(s0, m, seg)
    ensures Goal(s0, b, d, e, s) <==> r >= 0 && (d == 0 ==> r == 0) && r + (e - d - 1) == |s0|
  {
    hide Matches, SegAt;
    var seg := b[d + 1..e];
    if d == 0 {
      SegmentFront(s0, 0, seg, "");
      assert seg + "" == seg && s0[0..] == s0;
      EmptyPattern(s0, |seg|);
      forall m | 0 <= m <= |s0| ensures SegAt(s0, m, seg) ==> m + |seg| <= |s0| { SegFits(s0, m, seg); }
    } else {
      assert b[d..e] == ['*'] + seg;
      LastSegment(s0, s, seg);
      forall m | s <= m <= |s0| ensures SegAt(s0, m, seg) ==> m + |seg| <= |s0| { SegFits(s0, m, seg); }
    }
  }

  lemma EmptyPattern(s: string, i: nat)
    ensures i <= |s| ==> (Matches(s[i..], "") <==> i == |s|)
  {
  }

  lemma SlicesJoin(b: string, i: nat, j: nat, k: nat)
    requires i <= j <= k <= |b|
    ensures b[i..k] == b[i..j] + b[j..k]
  {
  }

  /** A segment with a star behind it, and where the search for its first occurrence ended. */
  lemma FirstStep(s0: string, b: string, d: nat, t: nat, e: nat, s: nat, r: int)
    requires d < t < e <= |b| && s <= |s0| && NoStar(b[d + 1..t]) && b[t] == '*' && (if d == 0 then s == 0 else b[d] == '*')
    requires var seg := b[d + 1..t];
      if r >= 0 then s <= r <= |s0| && SegAt(s0, r, seg) && forall m | s <= m < r :: !SegAt(s0, m, seg)
      else forall m | s <= m <= |s0| :: !SegAt(s0, m, seg)
    ensures r >= 0 && (d == 0 ==> r == 0) ==> r + (t - d - 1) <= |s0| && (Goal(s0, b, d, e, s) <==> Goal(s0, b, t, e, r + (t - d - 1)))
    ensures r < 0 || (d == 0 && r != 0) ==> !Goal(s0, b, d, e, s)
  {
    hide Matches, SegAt;
    var seg, rest := b[d + 1..t], b[t..e];
    if r >= 0 { SegFits(s0, r, seg); }
    if d == 0 {
      SegmentFront(s0, 0, seg, rest);
      SlicesJoin(b, 1, t, e);
      assert s0[0..] == s0;
    } else {
      SlicesJoin(b, d, d + 1, t);
      SlicesJoin(b, d, t, e);
      assert b[d..d + 1] == ['*'];
      if r >= 0 { Greedy(s0, s, seg, rest, r); } else { NoOccurrence(s0, s, seg, rest); }
    }
  }

  /** The pattern buffer: '^', the pattern, '$', NUL. */
  method Frame(d0: string) returns (buf: array<char>)
    requires |d0| <= MAXLEN - 3
    ensures fresh(buf) && buf.Length == MAXLEN && buf[..|d0| + 2] == ['^'] + d0 + ['$']
  {
    buf := new char[MAXLEN];
    var n := |d0|;
    buf[0] := '^';
    forall i | 0 <= i < n { buf[1 + i] := d0[i]; }
    buf[1 + n] := '$';
    buf[2 + n] := '\0';
  }

  /** The end of the segment behind the separator at d: the next star or dollar sign. */
  method SegmentEnd(buf: array<char>, d: nat, n: nat) returns (t: nat)
    requires d < n < buf.Length && buf[n] == '$'
    ensures d < t <= n && (buf[t] == '*' || buf[t] == '$')
    ensures forall j | d < j < t :: buf[j] != '*' && buf[j] != '$'
  {
    t := d + 1;
    while buf[t] != '*' && buf[t] != '$'
      invariant d < t <= n && forall j | d < j < t :: buf[j] != '*' && buf[j] != '$'
      decreases n - t
    {
      t := t + 1;
    }
  }

  /** Where the first '$' of the buffer is, and the pattern before it. */
  lemma {:induction false} DollarCut(p: string)
    ensures var e := |BeforeDollar(p)|;
      e <= |p| && BeforeDollar(p) == p[..e] && (p + ['$'])[e] == '$' && forall j | 0 <= j < e :: p[j] != '$'
  {
    if p != "" && p[0] != '$' {
      DollarCut(p[1..]);
      var e := |BeforeDollar(p[1..])|;
      assert p[..e + 1] == [p[0]] + p[1..][..e];
      assert (p + ['$'])[1..] == p[1..] + ['$'];
      forall j | 0 <= j < e + 1 ensures p[j] != '$' { if j > 0 { assert p[1..][j - 1] != '$'; } }
    }
  }

  lemma BufferCut(d0: string, b: string)
    requires b == ['^'] + d0 + ['$']
    ensures var e := |BeforeDollar(d0)| + 1;
      e <= |d0| + 1 && b[e] == '$' && b[1..e] == BeforeDollar(d0) && forall j | 0 <= j < e :: b[j] != '$'
  {
    DollarCut(d0);
    assert b[1..] == d0 + ['$'];
    forall j | 0 <= j < |BeforeDollar(d0)| + 1 ensures b[j] != '$' { if j > 0 { assert b[j] == d0[j - 1]; } }
  }

  /** strpat returns 1 exactly when the text matches the pattern, cut off at its first '$', under the
      declared meaning of '*' and '?'. */
  method StrPat(s0: string, d0: string) returns (r: int)
    requires NoNul(s0) && NoNul(d0) && |d0| <= MAXLEN - 3
    ensures r == if Matches(s0, BeforeDollar(d0)) then 1 else 0
  {
    hide Matches, SegAt, Goal, BeforeDollar;
    var buf := Frame(d0);
    var n := |d0| + 1;
    ghost var b, e := buf[..n + 1], |BeforeDollar(d0)| + 1;
    BufferCut(d0, b);
    var s: nat, d: nat := 0, 0;
    GoalStart(s0, b, e);
    while true
      invariant d < e && s <= |s0| && (if d == 0 then s == 0 else b[d] == '*')
      invariant Goal(s0, b, d, e, s) <==> Matches(s0, BeforeDollar(d0))
      invariant buf[..n + 1] == b
      decreases e - d
    {
      var t := SegmentEnd(buf, d, n);
      assert buf[t] == b[t] && buf[e] == b[e] && (buf[d] == '^' <==> d == 0);
      var tn := t - d - 1;
      var temp := buf[d + 1..t];
      ghost var part := b[d + 1..t];
      assert forall j | 0 <= j < |part| :: temp[j] == part[j];
      assert temp == part && NoStar(temp);
      TempNoNul(d0, b, d, t);
      if buf[t] == '$' {
        var m := FindLast(s0, s, temp);
        LastStep(s0, b, d, e, s, m);
        if m < 0 || (buf[d] == '^' && m != 0) || m + tn != |s0| {
          return 0;
        }
        return 1;
      }
      var m := FindFirst(s0, s, temp);
      FirstStep(s0, b, d, t, e, s, m);
      if m < 0 || (buf[d] == '^' && m != 0) {
        return 0;
      }
      s := m + tn;
      d := t;
    }
  }

  lemma GoalStart(s0: string, b: string, e: nat)
    requires 0 < e <= |b|
    ensures Goal(s0, b, 0, e, 0) <==> Matches(s0, b[1..e])
  {
  }

  lemma TempNoNul(d0: string, b: string, d: nat, t: nat)
    requires NoNul(d0) && b == ['^'] + d0 + ['$'] && d < t < |b|
    ensures NoNul(b[d + 1..t])
  {
  }

  /** Without a '$' in the pattern the result is the declared meaning of the whole pattern. */
  lemma {:induction false} NoDollar(p: string)
    requires forall j | 0 <= j < |p| :: p[j] != '$'
    ensures BeforeDollar(p) == p
  {
    if p != "" {
      NoDollar(p[1..]);
      assert p == [p[0]] + p[1..];
    }
  }

  /** A text that a pattern matches: the pattern without its stars, and a letter for each '?'. */
  function Sample(p: string): string {
    if p == "" then ""
    else if p[0] == '*' then Sample(p[1..])
    else [if p[0] == '?' then 'a' else p[0]] + Sample(p[1..])
  }

  lemma {:induction false} SampleMatches(p: string)
    ensures Matches(Sample(p), p) && (NoNul(p) ==> NoNul(Sample(p)))
  {
    if p != "" {
      SampleMatches(p[1..]);
      var s := Sample(p);
      if p[0] == '*' {
        assert s[0..] == s;
      } else {
        assert s[1..] == Sample(p[1..]);
      }
    }
  }

  /** A text that is matched is as long as the sample at least. */
  lemma {:induction false} MatchLong(s: string, p: string)
    requires Matches(s, p)
    ensures |Sample(p)| <= |s|
    decreases |p|
  {
    if p != "" {
      if p[0] == '*' {
        var k :| 0 <= k <= |s| && Matches(s[k..], p[1..]);
        MatchLong(s[k..], p[1..]);
      } else {
        MatchLong(s[1..], p[1..]);
      }
    }
  }

  lemma {:induction false} CutShorter(p: string, j: nat)
    requires j < |p| && p[j] == '$'
    ensures |Sample(BeforeDollar(p))| < |Sample(p)|
    decreases |p|
  {
    if p[0] != '$' {
      assert p[1..][j - 1] == '$';
      CutShorter(p[1..], j - 1);
      var c := BeforeDollar(p);
      assert c[0] == p[0] && c[1..] == BeforeDollar(p[1..]);
    }
  }

  /** The part of a pattern that strpat looks at means the same as the whole pattern, for every text, if
      and only if there is no '$' in it. */
  lemma DollarExact(p: string)
    requires NoNul(p)
    ensures (forall s | NoNul(s) :: Matches(s, BeforeDollar(p)) <==> Matches(s, p)) <==> forall j | 0 <= j < |p| :: p[j] != '$'
  {
    hide Matches;
    if j: nat :| j < |p| && p[j] == '$' {
      var s := Sample(BeforeDollar(p));
      CutShorter(p, j);
      DollarCut(p);
      SampleMatches(BeforeDollar(p));
      if Matches(s, p) { MatchLong(s, p); }
    } else {
      NoDollar(p);
    }
  }
}
