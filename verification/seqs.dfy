/** Sequence and string helpers standing in for the Qt and STL string
    operations the program calls: `QString::split` on a one-character
    separator, joining with a separator, and `QString::replace` of every
    occurrence of a pattern. */
module Seqs {

  /** Position of the first `x` in `s`, or `|s|` when there is none. */
  function IndexOf<T(==)>(s: seq<T>, x: T): (i: nat)
    ensures i <= |s|
    ensures i < |s| ==> s[i] == x
    ensures forall j :: 0 <= j < i ==> s[j] != x
  {
    if s == [] then 0 else if s[0] == x then 0 else 1 + IndexOf(s[1..], x)
  }

  /** The head and tail of a concatenation with a non-empty front. */
  lemma AppendFront<T>(a: seq<T>, b: seq<T>)
    requires a != []
    ensures (a + b)[0] == a[0] && (a + b)[1..] == a[1..] + b
  {
  }

  /** Cutting a sequence in two and putting it back together. */
  lemma SplitAt<T>(s: seq<T>, p: nat)
    requires p <= |s|
    ensures s[..p] + s[p..] == s
  {
  }

  lemma Regroup<T>(a: seq<T>, b: seq<T>, c: seq<T>)
    ensures a + b + c == a + (b + c)
  {
  }

  /** A sequence is what comes before position `i`, the element there,
      and what follows. */
  lemma Around<T>(s: seq<T>, i: nat)
    requires i < |s|
    ensures s[..i] + [s[i]] + s[i + 1..] == s
  {
    assert s == s[..i] + s[i..] && s[i..] == [s[i]] + s[i + 1..];
  }

  /** Moving the first element of `b` to the end of `a`. */
  lemma ShiftFront<T>(a: seq<T>, b: seq<T>)
    requires b != []
    ensures a + [b[0]] + b[1..] == a + b
  {
    assert b == [b[0]] + b[1..];
  }

  /** The parts of a sequence joined with `sep` between consecutive parts. */
  function Join<T>(parts: seq<seq<T>>, sep: seq<T>): seq<T>
  {
    if |parts| == 0 then []
    else if |parts| == 1 then parts[0]
    else parts[0] + sep + Join(parts[1..], sep)
  }

  lemma JoinCons<T>(first: seq<T>, rest: seq<seq<T>>, sep: seq<T>)
    requires |rest| >= 1
    ensures Join([first] + rest, sep) == first + sep + Join(rest, sep)
  {
    assert ([first] + rest)[1..] == rest;
  }

  /** `QString::split` with a one-character separator, keeping empty parts:
      the pieces between separators, from left to right. */
  function Split<T(==)>(s: seq<T>, sep: T): (parts: seq<seq<T>>)
    ensures |parts| >= 1
    ensures forall i :: 0 <= i < |parts| ==> sep !in parts[i]
    ensures Join(parts, [sep]) == s
    ensures |parts| == 1 <==> sep !in s
  {
    SplitFree(s, sep);
    SplitJoins(s, sep);
    assert IndexOf(s, sep) < |s| ==> s[IndexOf(s, sep)] == sep;
    Pieces(s, sep)
  }

  /** The recursion behind `Split`: the piece before the first separator,
      then the pieces of what follows it. */
  function Pieces<T(==)>(s: seq<T>, sep: T): (parts: seq<seq<T>>)
    ensures |parts| >= 1
    ensures |parts| == 1 <==> IndexOf(s, sep) == |s|
    decreases |s|
  {
    var i := IndexOf(s, sep);
    if i == |s| then [s]
    else [s[..i]] + Pieces(s[i + 1..], sep)
  }

  lemma {:induction false} SplitFree<T>(s: seq<T>, sep: T)
    ensures forall i :: 0 <= i < |Pieces(s, sep)| ==> sep !in Pieces(s, sep)[i]
    decreases |s|
  {
    var i := IndexOf(s, sep);
    if i < |s| {
      var rest := Pieces(s[i + 1..], sep);
      SplitFree(s[i + 1..], sep);
      assert forall k :: 1 <= k < |Pieces(s, sep)| ==> Pieces(s, sep)[k] == rest[k - 1];
    }
  }

  lemma {:induction false} SplitJoins<T>(s: seq<T>, sep: T)
    ensures Join(Pieces(s, sep), [sep]) == s
    decreases |s|
  {
    var i := IndexOf(s, sep);
    if i < |s| {
      var before, after := s[..i], s[i + 1..];
      Around(s, i);
      SplitJoins(after, sep);
      PiecesJoinStep(before, sep, after);
    }
  }

  lemma {:induction false} PiecesJoinStep<T>(before: seq<T>, sep: T, after: seq<T>)
    requires sep !in before
    requires Join(Pieces(after, sep), [sep]) == after
    ensures Join(Pieces(before + [sep] + after, sep), [sep]) == before + [sep] + after
  {
    var s := before + [sep] + after;
    IndexOfAfter(before, sep, after);
    assert s[..|before|] == before && s[|before| + 1..] == after;
    assert Pieces(s, sep) == [before] + Pieces(after, sep);
    JoinCons(before, Pieces(after, sep), [sep]);
  }

  /** The first separator of `a + [x] + b` is the one after `a` when `a`
      holds none. */
  lemma IndexOfAfter<T>(a: seq<T>, x: T, b: seq<T>)
    requires x !in a
    ensures IndexOf(a + [x] + b, x) == |a|
  {
    var s := a + [x] + b;
    assert s[|a|] == x;
    assert forall j :: 0 <= j < |a| ==> s[j] == a[j];
  }

  /** Splitting what `Join` produced gives the parts back, provided no part
      contains the separator. */
  lemma {:induction false} SplitJoin<T>(parts: seq<seq<T>>, sep: T)
    requires |parts| >= 1
    requires forall i :: 0 <= i < |parts| ==> sep !in parts[i]
    ensures Split(Join(parts, [sep]), sep) == parts
    decreases |parts|
  {
    if |parts| == 1 {
      assert Join(parts, [sep]) == parts[0];
    } else {
      var s := Join(parts, [sep]);
      var tail := Join(parts[1..], [sep]);
      assert s == parts[0] + [sep] + tail;
      IndexOfAfter(parts[0], sep, tail);
      var i := |parts[0]|;
      assert s[..i] == parts[0];
      assert s[i + 1..] == tail;
      SplitJoin(parts[1..], sep);
      assert Split(s, sep) == [parts[0]] + Split(tail, sep);
      assert parts == [parts[0]] + parts[1..];
    }
  }

  /** `pat` occurs in `s` starting at position `i`. */
  predicate OccursAt<T(==)>(s: seq<T>, pat: seq<T>, i: int)
  {
    0 <= i && i + |pat| <= |s| && s[i..i + |pat|] == pat
  }

  predicate Occurs<T(==)>(s: seq<T>, pat: seq<T>)
  {
    exists i | 0 <= i <= |s| :: OccursAt(s, pat, i)
  }

  /** `QString::replace(before, after)`: scan left to right and replace every
      non-overlapping occurrence of `before` by `after`; text produced by a
      replacement is not scanned again. */
  function ReplaceAll<T(==)>(s: seq<T>, before: seq<T>, after: seq<T>): (r: seq<T>)
    requires |before| > 0
    ensures |after| == |before| ==> |r| == |s|
    ensures |after| >= |before| ==> |r| >= |s|
    decreases |s|
  {
    if |s| < |before| then s
    else if s[..|before|] == before then after + ReplaceAll(s[|before|..], before, after)
    else [s[0]] + ReplaceAll(s[1..], before, after)
  }

  /** Text free of the pattern comes back unchanged. */
  lemma {:induction false} ReplaceAllAbsent<T>(s: seq<T>, before: seq<T>, after: seq<T>)
    requires |before| > 0
    ensures !Occurs(s, before) ==> ReplaceAll(s, before, after) == s
    decreases |s|
  {
    if |s| >= |before| && !Occurs(s, before) {
      assert !OccursAt(s, before, 0);
      NoOccurrenceInTail(s, before);
      ReplaceAllAbsent(s[1..], before, after);
      assert s == [s[0]] + s[1..];
    }
  }

  /** A pattern whose first element does not reappear later in it cannot
      overlap itself, so it cannot straddle the start of one of its own
      occurrences. */
  predicate Unbordered<T(==)>(pat: seq<T>)
  {
    |pat| > 0 && pat[0] !in pat[1..]
  }

  /** Dropping the first element cannot create an occurrence. */
  lemma NoOccurrenceInTail<T>(s: seq<T>, pat: seq<T>)
    requires |s| > 0
    requires !Occurs(s, pat)
    ensures !Occurs(s[1..], pat)
  {
    forall i | 0 <= i <= |s[1..]| && OccursAt(s[1..], pat, i)
      ensures false
    {
      assert s[1..][i..i + |pat|] == s[i + 1..i + 1 + |pat|];
      assert OccursAt(s, pat, i + 1);
    }
  }

  /** No occurrence of an unbordered pattern starts inside a non-empty
      prefix that is free of it, even one that runs into the next
      occurrence. */
  lemma NoOccurrenceAtPrefixStart<T>(p: seq<T>, before: seq<T>, rest: seq<T>)
    requires Unbordered(before)
    requires |p| > 0
    requires !Occurs(p, before)
    ensures (p + before + rest)[..|before|] != before
  {
    var s := p + before + rest;
    if |before| <= |p| {
      assert p[0..|before|] == s[..|before|];
      assert !OccursAt(p, before, 0);
    } else {
      var k := |p|;
      assert s[k] == before[0];
      assert before[1..][k - 1] == before[k];
      assert s[..|before|][k] == s[k];
    }
  }

  /** An occurrence at the front is replaced and the scan resumes after it. */
  lemma ReplaceAllAtFront<T>(before: seq<T>, after: seq<T>, rest: seq<T>)
    requires |before| > 0
    ensures ReplaceAll(before + rest, before, after) == after + ReplaceAll(rest, before, after)
  {
    var s := before + rest;
    assert s[..|before|] == before;
    assert s[|before|..] == rest;
  }

  /** When no occurrence starts at the front, the first element is copied. */
  lemma ReplaceAllSkipFront<T>(p: seq<T>, before: seq<T>, after: seq<T>, rest: seq<T>)
    requires |before| > 0
    requires p != []
    requires (p + before + rest)[..|before|] != before
    ensures ReplaceAll(p + before + rest, before, after)
         == [p[0]] + ReplaceAll(p[1..] + before + rest, before, after)
  {
    var s := p + before + rest;
    assert s[1..] == p[1..] + before + rest;
  }

  /** Scanning a prefix free of the pattern copies it unchanged and then
      replaces the occurrence that follows. */
  lemma {:induction false} ReplaceAllAfterPrefix<T>(p: seq<T>, before: seq<T>, after: seq<T>, rest: seq<T>)
    requires Unbordered(before)
    requires !Occurs(p, before)
    ensures ReplaceAll(p + before + rest, before, after) == p + after + ReplaceAll(rest, before, after)
    decreases |p|
  {
    if p == [] {
      ReplaceAllAtFront(before, after, rest);
    } else {
      NoOccurrenceInTail(p, before);
      ReplaceAllAfterPrefix(p[1..], before, after, rest);
      ReplaceAllCopiesFront(p, before, after, rest);
    }
  }

  /** One step of the scan over a pattern-free prefix: its first element is
      copied in front of what the rest of the scan produces. */
  lemma ReplaceAllCopiesFront<T>(p: seq<T>, before: seq<T>, after: seq<T>, rest: seq<T>)
    requires Unbordered(before)
    requires p != []
    requires !Occurs(p, before)
    requires ReplaceAll(p[1..] + before + rest, before, after)
          == p[1..] + after + ReplaceAll(rest, before, after)
    ensures ReplaceAll(p + before + rest, before, after) == p + after + ReplaceAll(rest, before, after)
  {
    NoOccurrenceAtPrefixStart(p, before, rest);
    ReplaceAllSkipFront(p, before, after, rest);
    Prepend(p, after, ReplaceAll(rest, before, after));
  }

  /** Putting the first element back in front of the rest. */
  lemma Prepend<T>(p: seq<T>, u: seq<T>, v: seq<T>)
    requires p != []
    ensures [p[0]] + (p[1..] + u + v) == p + u + v
  {
    assert [p[0]] + p[1..] == p;
  }

  /** Replacing every occurrence of the separator of a join re-joins the same
      parts with the replacement, when no part contains the separator. */
  lemma {:induction false} ReplaceAllJoin<T>(parts: seq<seq<T>>, before: seq<T>, after: seq<T>)
    requires Unbordered(before)
    requires forall i :: 0 <= i < |parts| ==> !Occurs(parts[i], before)
    ensures ReplaceAll(Join(parts, before), before, after) == Join(parts, after)
    decreases |parts|
  {
    if |parts| == 1 {
      ReplaceAllAbsent(parts[0], before, after);
    } else if |parts| >= 2 {
      ReplaceAllAfterPrefix(parts[0], before, after, Join(parts[1..], before));
      ReplaceAllJoin(parts[1..], before, after);
    }
  }
}
