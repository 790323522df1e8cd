/**
 The boundary matcher: a Knuth-Morris-Pratt scan whose every comparison is charged
 to a step budget shared by the whole invocation.
 */
module Kmp {
  import opened Prelude
  import opened Utf8

  const USIZE_MAX := 0xFFFF_FFFF_FFFF_FFFF

  datatype Field =
    | LeftBoundaryBytes | RightBoundaryBytes | InputCount | InputBytes | MatchCount | ValueBytes | SearchSteps

  datatype MatchError = InvalidLimits | Limit(field: Field) | MatchNumberLimit | Overflow

  // ---------- what a search means ----------

  predicate Occurs(h: Bytes, p: Bytes, i: nat)
  {
    i + |p| <= |h| && h[i..i + |p|] == p
  }

  /** The naive search: try every offset in turn. */
  function Leftmost(h: Bytes, p: Bytes, start: nat): (r: Option<nat>)
    ensures r.Some? ==> start <= r.value && r.value + |p| <= |h|
    decreases |h| - start
  {
    if start + |p| > |h| then None
    else if Occurs(h, p, start) then Some(start)
    else if start == |h| then None
    else Leftmost(h, p, start + 1)
  }

  ghost predicate IsLeftmost(h: Bytes, p: Bytes, start: nat, r: Option<nat>)
  {
    (r.Some? ==> start <= r.value && Occurs(h, p, r.value)) &&
    forall j: nat | start <= j && Occurs(h, p, j) :: r.Some? && r.value <= j
  }

  lemma {:induction false} LeftmostIsLeftmost(h: Bytes, p: Bytes, start: nat)
    ensures IsLeftmost(h, p, start, Leftmost(h, p, start))
    decreases |h| - start
  {
    if start < |h| { LeftmostIsLeftmost(h, p, start + 1); }
  }

  // ---------- borders ----------

  /** The last `k` bytes of `h[..i]` are the first `k` bytes of `p`. */
  predicate EndsWith(h: Bytes, i: nat, p: Bytes, k: nat)
  {
    k <= |p| && k <= i <= |h| && p[..k] == h[i - k..i]
  }

  /** `k` is the length of the longest proper border of `p[..n]`. */
  predicate LongestBorder(p: Bytes, n: nat, k: nat)
  {
    k < n && EndsWith(p, n, p, k) && forall j | k < j < n :: !EndsWith(p, n, p, j)
  }

  datatype BoundaryPattern = BoundaryPattern(bytes: Bytes, prefix: seq<nat>)
  {
    predicate Shaped()
    {
      |prefix| == |bytes| && forall i | 0 <= i < |prefix| :: prefix[i] <= i
    }

    /** Entry `i` of the table is the longest proper border of the first `i + 1` bytes. */
    ghost predicate Valid()
    {
      Shaped() && forall i | 0 <= i < |prefix| :: LongestBorder(bytes, i + 1, prefix[i])
    }
  }

  function BorderBelow(p: Bytes, n: nat, k: nat): (r: nat)
    requires k < n <= |p|
    ensures r <= k
  {
    if k == 0 || EndsWith(p, n, p, k) then k else BorderBelow(p, n, k - 1)
  }

  lemma {:induction false} BorderBelowIsLongest(p: Bytes, n: nat, k: nat)
    requires k < n <= |p|
    ensures EndsWith(p, n, p, BorderBelow(p, n, k))
    ensures forall j | BorderBelow(p, n, k) < j <= k :: !EndsWith(p, n, p, j)
  {
    if k != 0 && !EndsWith(p, n, p, k) { BorderBelowIsLongest(p, n, k - 1); }
  }

  /** The pattern whose table is computed by trying every border length in turn. */
  function PatternOf(value: Bytes): (p: BoundaryPattern)
    ensures p.bytes == value && p.Shaped()
  {
    BoundaryPattern(value, seq(|value|, i requires 0 <= i < |value| => BorderBelow(value, i + 1, i)))
  }

  /** There is exactly one right table. */
  lemma PatternUnique(p: BoundaryPattern)
    ensures p.Valid() <==> p == PatternOf(p.bytes)
  {
    var q := PatternOf(p.bytes);
    forall i | 0 <= i < |q.prefix|
      ensures LongestBorder(q.bytes, i + 1, q.prefix[i])
    {
      BorderBelowIsLongest(q.bytes, i + 1, i);
    }
    if p.Valid() { assert p.prefix == q.prefix; }
  }

  // ---------- the automaton ----------

  /** Follows borders from `m` until one can be extended by `b`. */
  function Fall(p: BoundaryPattern, m: nat, b: Byte): (k: nat)
    requires p.Shaped() && m < |p.bytes|
    ensures k <= m && (k == 0 || p.bytes[k] == b)
  {
    if m == 0 || p.bytes[m] == b then m else Fall(p, p.prefix[m - 1], b)
  }

  /** The moves `Fall` makes. */
  function FallCost(p: BoundaryPattern, m: nat, b: Byte): (c: nat)
    requires p.Shaped() && m < |p.bytes|
    ensures Fall(p, m, b) + c <= m
  {
    if m == 0 || p.bytes[m] == b then 0 else 1 + FallCost(p, p.prefix[m - 1], b)
  }

  /** The automaton's next state: how many bytes match after reading `b`. */
  function Next(p: BoundaryPattern, m: nat, b: Byte): (n: nat)
    requires p.Shaped() && m < |p.bytes|
    ensures n <= m + 1 && n <= |p.bytes|
  {
    var k := Fall(p, m, b);
    if p.bytes[k] == b then k + 1 else k
  }

  /** Where the automaton, run from offset `i` with `m` bytes matched, completes a match. */
  function RunEnd(p: BoundaryPattern, h: Bytes, i: nat, m: nat): (end: Option<nat>)
    requires p.Shaped() && m < |p.bytes| && i <= |h|
    decreases |h| - i
  {
    if i == |h| then None
    else
      var n := Next(p, m, h[i]);
      if n == |p.bytes| then Some(i + 1) else RunEnd(p, h, i + 1, n)
  }

  /** What that run charges. */
  function RunCost(p: BoundaryPattern, h: Bytes, i: nat, m: nat): (cost: nat)
    requires p.Shaped() && m < |p.bytes| && i <= |h|
    decreases |h| - i
  {
    if i == |h| then 0
    else
      var n := Next(p, m, h[i]);
      FallCost(p, m, h[i]) + 1 + if n == |p.bytes| then 0 else RunCost(p, h, i + 1, n)
  }

  /** What one search costs when nothing limits it. */
  function SearchCost(p: BoundaryPattern, h: Bytes, start: nat): (cost: nat)
    requires p.Shaped()
  {
    if p.bytes == [] || start >= |h| then 0 else RunCost(p, h, start, 0)
  }

  /**
   `m` is the longest prefix of `p`, short of all of it, that ends at `i` without
   reaching back before `start`.
   */
  ghost predicate Matched(p: Bytes, h: Bytes, start: nat, i: nat, m: nat)
  {
    start <= i <= |h| && m < |p| && start + m <= i && EndsWith(h, i, p, m) &&
    forall j | m < j < |p| && start + j <= i :: !EndsWith(h, i, p, j)
  }

  /** No prefix longer than `m` that ends at `i` can be extended by the byte at `i`. */
  ghost predicate NoneLonger(p: Bytes, h: Bytes, start: nat, i: nat, m: nat)
    requires i < |h|
  {
    forall j | m < j < |p| && start + j <= i :: !(EndsWith(h, i, p, j) && p[j] == h[i])
  }

  /** The part of the table that a state `m` can reach is right. */
  ghost predicate BordersBelow(p: BoundaryPattern, m: nat)
    requires p.Shaped() && m <= |p.bytes|
  {
    forall i | 0 <= i < m :: LongestBorder(p.bytes, i + 1, p.prefix[i])
  }

  /** A shorter suffix of a suffix that matches a prefix. */
  lemma SuffixOfMatch(p: Bytes, h: Bytes, i: nat, m: nat, j: nat)
    requires EndsWith(h, i, p, m) && j <= m
    ensures EndsWith(h, i, p, j) <==> EndsWith(p, m, p, j)
  {
    assert h[i - j..i] == h[i - m..i][m - j..] == p[..m][m - j..] == p[m - j..m];
  }

  /** After a mismatch nothing between a match and its longest border can be extended either. */
  lemma BorderSkips(p: Bytes, h: Bytes, start: nat, i: nat, m: nat, k: nat)
    requires m < |p| && start <= i < |h| && start + m <= i && EndsWith(h, i, p, m) && p[m] != h[i]
    requires LongestBorder(p, m, k) && NoneLonger(p, h, start, i, m)
    ensures start + k <= i && EndsWith(h, i, p, k) && NoneLonger(p, h, start, i, k)
  {
    hide EndsWith;
    SuffixOfMatch(p, h, i, m, k);
    forall j | k < j < |p| && start + j <= i ensures !(EndsWith(h, i, p, j) && p[j] == h[i]) {
      if j < m { SuffixOfMatch(p, h, i, m, j); }
    }
  }

  lemma {:induction false} FallKeeps(p: BoundaryPattern, h: Bytes, start: nat, i: nat, m: nat)
    requires p.Shaped() && m < |p.bytes| && BordersBelow(p, m)
    requires start <= i < |h| && start + m <= i && EndsWith(h, i, p.bytes, m)
    requires NoneLonger(p.bytes, h, start, i, m)
    ensures var k := Fall(p, m, h[i]);
            start + k <= i && EndsWith(h, i, p.bytes, k) && NoneLonger(p.bytes, h, start, i, k)
    decreases m
  {
    hide EndsWith, NoneLonger, LongestBorder;
    if m != 0 && p.bytes[m] != h[i] {
      var k := p.prefix[m - 1];
      assert LongestBorder(p.bytes, m, k);
      BorderSkips(p.bytes, h, start, i, m, k);
      FallKeeps(p, h, start, i, k);
    }
  }

  lemma Extended(p: Bytes, h: Bytes, i: nat, k: nat)
    requires i < |h| && k < |p| && k <= i
    ensures EndsWith(h, i + 1, p, k + 1) <==> EndsWith(h, i, p, k) && p[k] == h[i]
  {
    if EndsWith(h, i + 1, p, k + 1) {
      assert p[..k] == p[..k + 1][..k] == h[i - k..i + 1][..k] == h[i - k..i];
      assert p[k] == p[..k + 1][k] == h[i - k..i + 1][k] == h[i];
    }
    if EndsWith(h, i, p, k) && p[k] == h[i] {
      assert p[..k + 1] == p[..k] + [p[k]] == h[i - k..i] + [h[i]] == h[i - k..i + 1];
    }
  }

  lemma NothingEnds(p: Bytes, h: Bytes, i: nat)
    requires i <= |h|
    ensures EndsWith(h, i, p, 0)
  {
  }

  /** One byte of the scan: the next state is again the longest match. */
  lemma StepMatched(p: BoundaryPattern, h: Bytes, start: nat, i: nat, m: nat)
    requires p.Shaped() && m < |p.bytes| && BordersBelow(p, m)
    requires i < |h| && Matched(p.bytes, h, start, i, m)
    ensures var n := Next(p, m, h[i]);
            start + n <= i + 1 && EndsWith(h, i + 1, p.bytes, n) &&
            (n < |p.bytes| ==>
               Matched(p.bytes, h, start, i + 1, n) &&
               (start + |p.bytes| <= i + 1 ==> !EndsWith(h, i + 1, p.bytes, |p.bytes|)))
  {
    hide EndsWith;
    NothingEnds(p.bytes, h, i + 1);
    FallKeeps(p, h, start, i, m);
    Extended(p.bytes, h, i, Fall(p, m, h[i]));
    var n, next := Next(p, m, h[i]), i + 1;
    forall j | n < j <= |p.bytes| && start + j <= next
      ensures !EndsWith(h, next, p.bytes, j)
    {
      Extended(p.bytes, h, i, j - 1);
    }
  }

  lemma OccursEndsWith(p: Bytes, h: Bytes, i: nat)
    requires |p| <= i <= |h|
    ensures EndsWith(h, i, p, |p|) <==> Occurs(h, p, i - |p|)
  {
    assert p[..|p|] == p;
  }

  /** No occurrence at or after `start` ends by `i`. */
  ghost predicate NoneYet(p: Bytes, h: Bytes, start: nat, i: nat)
  {
    forall j: nat | start <= j && j + |p| <= i :: !Occurs(h, p, j)
  }

  /** One byte of the scan either completes the leftmost occurrence or moves the invariant on. */
  lemma Advance(p: BoundaryPattern, h: Bytes, start: nat, i: nat, m: nat)
    requires p.Valid() && i < |h| && Matched(p.bytes, h, start, i, m) && NoneYet(p.bytes, h, start, i)
    ensures var n := Next(p, m, h[i]);
            if n == |p.bytes| then i + 1 >= n && Leftmost(h, p.bytes, start) == Some(i + 1 - n)
            else Matched(p.bytes, h, start, i + 1, n) && NoneYet(p.bytes, h, start, i + 1)
  {
    hide LongestBorder, Next, Leftmost;
    StepMatched(p, h, start, i, m);
    LeftmostIsLeftmost(h, p.bytes, start);
    if |p.bytes| <= i + 1 { OccursEndsWith(p.bytes, h, i + 1); }
  }

  /** Where a search for `p` with result `found` stopped reading. */
  function ScanEnd(p: Bytes, h: Bytes, found: Option<nat>): (e: int)
  {
    if found.Some? then found.value + |p| else |h|
  }

  /**
   The automaton finds exactly what the naive search finds, and charges at most two
   steps for every byte it reads.
   */
  lemma {:induction false} RunIsLeftmost(p: BoundaryPattern, h: Bytes, start: nat, i: nat, m: nat)
    requires p.Valid() && Matched(p.bytes, h, start, i, m) && NoneYet(p.bytes, h, start, i)
    ensures var found := Leftmost(h, p.bytes, start);
            RunEnd(p, h, i, m) == (if found.Some? then Some(found.value + |p.bytes|) else None) &&
            RunCost(p, h, i, m) <= 2 * (ScanEnd(p.bytes, h, found) - i) + m
    decreases |h| - i
  {
    hide LongestBorder;
    if i < |h| {
      Advance(p, h, start, i, m);
      var n := Next(p, m, h[i]);
      if n != |p.bytes| { RunIsLeftmost(p, h, start, i + 1, n); }
    } else {
      LeftmostIsLeftmost(h, p.bytes, start);
    }
  }

  /** The whole search, from an empty match. */
  lemma SearchIsLeftmost(p: BoundaryPattern, h: Bytes, start: nat)
    requires p.Valid() && p.bytes != [] && start <= |h|
    ensures var found := Leftmost(h, p.bytes, start);
            RunEnd(p, h, start, 0) == (if found.Some? then Some(found.value + |p.bytes|) else None) &&
            SearchCost(p, h, start) <= 2 * (ScanEnd(p.bytes, h, found) - start)
  {
    assert EndsWith(h, start, p.bytes, 0);
    RunIsLeftmost(p, h, start, start, 0);
  }

  // ---------- the code ----------

  /** Entry `n` of the table follows from the entries before it. */
  lemma NextEntry(p: BoundaryPattern, n: nat)
    requires p.Shaped() && 0 < n < |p.bytes| && BordersBelow(p, n)
    ensures var k := Next(p, p.prefix[n - 1], p.bytes[n]);
            k <= n &&
            var q := BoundaryPattern(p.bytes, p.prefix[n := k]);
            q.Shaped() && BordersBelow(q, n + 1)
  {
    var m := p.prefix[n - 1];
    assert LongestBorder(p.bytes, n, m);
    StepMatched(p, p.bytes, 1, n, m);
    assert LongestBorder(p.bytes, n + 1, Next(p, m, p.bytes[n]));
  }

  /** The table is right at its start, and valid when it is right to its end. */
  lemma TableEnds(p: BoundaryPattern)
    requires p.Shaped()
    ensures p.bytes != [] && p.prefix[0] == 0 ==> BordersBelow(p, 1)
    ensures BordersBelow(p, |p.bytes|) ==> p.Valid()
  {
  }

  /** The inner loop of the table: from border to border, in the part already filled. */
  method FallBack(value: Bytes, prefix: array<nat>, ghost table: BoundaryPattern, from: nat, b: Byte)
    returns (length: nat)
    requires table == BoundaryPattern(value, prefix[..]) && table.Shaped() && from < |value|
    ensures length == Fall(table, from, b)
  {
    length := from;
    while length > 0 && b != value[length]
      invariant length < |value| && Fall(table, length, b) == Fall(table, from, b)
    {
      length := prefix[length - 1];
    }
  }

  method NewPattern(value: Bytes) returns (p: BoundaryPattern)
    ensures p.bytes == value && p.Valid()
  {
    var prefix := new nat[|value|](_ => 0);
    var length := 0;
    var index := 1;
    ghost var table := BoundaryPattern(value, prefix[..]);
    hide LongestBorder, BordersBelow, Fall;
    TableEnds(table);
    while index < |value|
      invariant 1 <= index && (index <= |value| || |value| == 0)
      invariant table == BoundaryPattern(value, prefix[..]) && table.Shaped()
      invariant |value| > 0 ==> length == prefix[index - 1] && BordersBelow(table, index)
    {
      length := FallBack(value, prefix, table, length, value[index]);
      if value[index] == value[length] {
        length := length + 1;
      }
      NextEntry(table, index);
      prefix[index] := length;
      table := BoundaryPattern(value, table.prefix[index := length]);
      index := index + 1;
    }
    p := BoundaryPattern(value, prefix[..]);
    TableEnds(p);
  }

  method BumpSteps(steps: nat, maximum: nat) returns (r: Result<nat, MatchError>)
    ensures steps < maximum <= USIZE_MAX ==> r == Ok(steps + 1)
    ensures maximum <= steps < USIZE_MAX ==> r == Err(Limit(SearchSteps))
    ensures USIZE_MAX <= steps ==> r == Err(Overflow)
  {
    if steps + 1 > USIZE_MAX {
      return Err(Overflow);
    }
    if steps + 1 > maximum {
      return Err(Limit(SearchSteps));
    }
    return Ok(steps + 1);
  }

  /** The scanning loop of `FindFrom`, step for step the run of the automaton. */
  method ScanFrom(p: BoundaryPattern, haystack: Bytes, start: nat, steps: nat, maximum: nat)
    returns (r: Result<Option<nat>, MatchError>, charged: nat)
    requires p.Shaped() && p.bytes != [] && start <= |haystack| && steps <= maximum <= USIZE_MAX
    ensures r.Ok? <==> steps + RunCost(p, haystack, start, 0) <= maximum
    ensures r.Err? ==> r.error == if maximum == USIZE_MAX then Overflow else Limit(SearchSteps)
    ensures r.Ok? ==> charged == steps + RunCost(p, haystack, start, 0)
    ensures r.Ok? ==>
              RunEnd(p, haystack, start, 0) ==
              match r.value case None => None case Some(i) => Some(i + |p.bytes|)
  {
    charged := steps;
    var matched := 0;
    var index := start;
    while index < |haystack|
      invariant start <= index <= |haystack| && 0 <= matched < |p.bytes| && matched <= index
      invariant charged <= maximum
      invariant RunEnd(p, haystack, index, matched) == RunEnd(p, haystack, start, 0)
      invariant charged + RunCost(p, haystack, index, matched) == steps + RunCost(p, haystack, start, 0)
    {
      var byte := haystack[index];
      ghost var entry, paid := matched, charged;
      while matched > 0 && byte != p.bytes[matched]
        invariant 0 <= matched <= entry && charged <= maximum
        invariant Fall(p, matched, byte) == Fall(p, entry, byte)
        invariant charged + FallCost(p, matched, byte) == paid + FallCost(p, entry, byte)
      {
        var bumped := BumpSteps(charged, maximum);
        if bumped.Err? {
          return Err(bumped.error), charged;
        }
        charged := bumped.value;
        matched := p.prefix[matched - 1];
      }
      var bumped := BumpSteps(charged, maximum);
      if bumped.Err? {
        return Err(bumped.error), charged;
      }
      charged := bumped.value;
      if byte == p.bytes[matched] {
        matched := matched + 1;
        if matched == |p.bytes| {
          return Ok(Some(index + 1 - |p.bytes|)), charged;
        }
      }
      index := index + 1;
    }
    return Ok(None), charged;
  }

  /**
   The search succeeds exactly when the remaining budget covers its cost; it then
   returns the leftmost occurrence at or after `start` and charges the exact cost.
   */
  method FindFrom(p: BoundaryPattern, haystack: Bytes, start: nat, steps: nat, maximum: nat)
    returns (r: Result<Option<nat>, MatchError>, charged: nat)
    requires p.Valid() && steps <= maximum <= USIZE_MAX
    ensures r.Ok? <==> steps + SearchCost(p, haystack, start) <= maximum
    ensures r.Err? ==> r.error == if maximum == USIZE_MAX then Overflow else Limit(SearchSteps)
    ensures r.Ok? ==> charged == steps + SearchCost(p, haystack, start)
    ensures r.Ok? && p.bytes != [] ==> r.value == Leftmost(haystack, p.bytes, start)
    ensures r.Ok? && p.bytes != [] ==> IsLeftmost(haystack, p.bytes, start, r.value)
    ensures p.bytes == [] ==> r == Ok(Some(if start <= |haystack| then start else |haystack|))
  {
    if p.bytes == [] {
      return Ok(Some(if start <= |haystack| then start else |haystack|)), steps;
    }
    LeftmostIsLeftmost(haystack, p.bytes, start);
    if start >= |haystack| {
      return Ok(None), steps;
    }
    SearchIsLeftmost(p, haystack, start);
    r, charged := ScanFrom(p, haystack, start, steps, maximum);
  }
}
